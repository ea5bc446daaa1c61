/** The incremental line stepper shared by `NormalDrawLine` and `AdditiveDrawLine`, for
    integer endpoints.  The stepper walks the major axis one pixel at a time and keeps an
    error term `G`; whenever `G` turns positive the minor coordinate moves by one.  The
    cells it visits are characterised here by `Nearest`: on every column (or row) the
    minor offset is the integer nearest to the exact line, ties rounding towards the
    start point. */
module Line {
  import opened Bits
  import opened Grid

  /** A segment from (x0, y0) to (x1, y1), in pixels. */
  datatype Segment = Segment(x0: int, y0: int, x1: int, y1: int)

  function Abs(n: int): nat
  {
    if n < 0 then -n else n
  }

  function Min(a: int, b: int): int
  {
    if a < b then a else b
  }

  function Max(a: int, b: int): int
  {
    if a < b then b else a
  }

  /** `abs(dv) < abs(dh)`: the stepper walks columns; otherwise it walks rows. */
  predicate MostlyHorizontal(s: Segment)
  {
    Abs(s.y1 - s.y0) < Abs(s.x1 - s.x0)
  }

  function Reverse(s: Segment): Segment
  {
    Segment(s.x1, s.y1, s.x0, s.y0)
  }

  /** The segment after the stepper's endpoint swap: the major coordinate never decreases. */
  function Oriented(s: Segment): (r: Segment)
    ensures r == s || r == Reverse(s)
    ensures MostlyHorizontal(s) ==> r.x0 <= r.x1
    ensures !MostlyHorizontal(s) ==> r.y0 <= r.y1
  {
    if MostlyHorizontal(s) then (if s.x1 - s.x0 < 0 then Reverse(s) else s)
    else (if s.y1 - s.y0 < 0 then Reverse(s) else s)
  }

  /** The direction `inc` in which the minor coordinate moves. */
  function Step(delta: int): int
  {
    if delta < 0 then -1 else 1
  }

  /** The coordinate k steps from `base` in the direction of `delta`. */
  function Toward(base: int, delta: int, k: int): int
  {
    if delta < 0 then base - k else base + k
  }

  /** The minor offset chosen at major offset j on a line rising `minor` over `major`. */
  function Nearest(j: int, minor: nat, major: nat): int
  {
    if major == 0 then 0 else (2 * minor * j + major - 1) / (2 * major)
  }

  /** Nearest(j) is the unique k with -major < 2*minor*j - 2*major*k <= major. */
  lemma NearestBounds(j: int, m: nat, d: nat)
    requires d > 0
    ensures -(d as int) < 2 * m * j - 2 * d * Nearest(j, m, d) <= d
  {
    var n := 2 * m * j + d - 1;
    assert n == (2 * d) * (n / (2 * d)) + n % (2 * d);
  }

  lemma NearestUnique(j: int, m: nat, d: nat, k: int)
    requires d > 0
    requires -(d as int) < 2 * m * j - 2 * d * k <= d
    ensures Nearest(j, m, d) == k
  {
    var n := 2 * m * j + d - 1;
    assert n == (2 * d) * k + (n - 2 * d * k);
    DivModUnique(n, 2 * d, k, n - 2 * d * k);
  }

  /** One stepper iteration: with G = 2m(j+1) - 2dk - d for k = Nearest(j), the next
      offset is k + 1 exactly when G > 0. */
  lemma NearestStep(j: int, m: nat, d: nat)
    requires 0 < d && m <= d
    ensures var k := Nearest(j, m, d);
      Nearest(j + 1, m, d) == if 2 * m * (j + 1) - 2 * d * k - d > 0 then k + 1 else k
  {
    var k := Nearest(j, m, d);
    NearestBounds(j, m, d);
    assert 2 * m * (j + 1) == 2 * m * j + 2 * m;
    if 2 * m * (j + 1) - 2 * d * k - d > 0 {
      assert 2 * d * (k + 1) == 2 * d * k + 2 * d;
      NearestUnique(j + 1, m, d, k + 1);
    } else {
      NearestUnique(j + 1, m, d, k);
    }
  }

  /** The start point has offset 0. */
  lemma NearestFirst(m: nat, d: nat)
    ensures Nearest(0, m, d) == 0
  {
    if d > 0 {
      DivModUnique(d - 1, 2 * d, 0, d - 1);
    }
  }

  /** The end point, `major` steps on, has offset `minor`: it lies exactly on the line. */
  lemma NearestLast(m: nat, d: nat)
    requires d > 0
    ensures Nearest(d, m, d) == m
  {
    assert 2 * m * d + d - 1 == (2 * d) * m + (d - 1);
    DivModUnique(2 * m * d + d - 1, 2 * d, m, d - 1);
  }

  /** Once the offset has reached `minor`, the error term stays non-positive. */
  lemma NoStepPastEnd(j: nat, m: nat, d: nat)
    requires j <= d
    ensures 2 * m * j - 2 * d * m - d <= 0
  {
    MulAtMost(j, d, 2 * m);
    assert 2 * m * j == j * (2 * m) && 2 * d * m == d * (2 * m);
  }

  /** Over the segment's own span the offset stays between 0 and `minor`. */
  lemma {:induction false} NearestRange(j: nat, m: nat, d: nat)
    requires m <= d && j <= d
    ensures 0 <= Nearest(j, m, d) <= m
  {
    if j == 0 {
      NearestFirst(m, d);
    } else {
      NearestRange(j - 1, m, d);
      NearestStep(j - 1, m, d);
      if Nearest(j - 1, m, d) == m {
        NoStepPastEnd(j, m, d);
      }
    }
  }

  /** The row the stepper paints in column x of a mostly horizontal segment. */
  function RowAt(s: Segment, x: int): int
  {
    var o := Oriented(s);
    Toward(o.y0, o.y1 - o.y0, Nearest(x - o.x0, Abs(o.y1 - o.y0), Abs(o.x1 - o.x0)))
  }

  /** The column the stepper paints in row y of a mostly vertical segment. */
  function ColumnAt(s: Segment, y: int): int
  {
    var o := Oriented(s);
    Toward(o.x0, o.x1 - o.x0, Nearest(y - o.y0, Abs(o.x1 - o.x0), Abs(o.y1 - o.y0)))
  }

  /** The cells the stepper paints: one per column (mostly horizontal) or per row. */
  predicate OnLine(s: Segment, x: int, y: int)
  {
    var o := Oriented(s);
    if MostlyHorizontal(s) then o.x0 <= x <= o.x1 && y == RowAt(s, x)
    else o.y0 <= y <= o.y1 && x == ColumnAt(s, y)
  }

  /** Both endpoints are painted. */
  lemma LineEndpoints(s: Segment)
    ensures OnLine(s, s.x0, s.y0) && OnLine(s, s.x1, s.y1)
  {
    var o := Oriented(s);
    if MostlyHorizontal(s) {
      ColumnEnds(s);
    } else {
      RowEnds(s);
    }
  }

  lemma ColumnEnds(s: Segment)
    requires MostlyHorizontal(s)
    ensures RowAt(s, Oriented(s).x0) == Oriented(s).y0 && RowAt(s, Oriented(s).x1) == Oriented(s).y1
  {
    var o := Oriented(s);
    NearestFirst(Abs(o.y1 - o.y0), Abs(o.x1 - o.x0));
    NearestLast(Abs(o.y1 - o.y0), Abs(o.x1 - o.x0));
  }

  lemma RowEnds(s: Segment)
    requires !MostlyHorizontal(s)
    ensures ColumnAt(s, Oriented(s).y0) == Oriented(s).x0 && ColumnAt(s, Oriented(s).y1) == Oriented(s).x1
  {
    var o := Oriented(s);
    NearestFirst(Abs(o.x1 - o.x0), Abs(o.y1 - o.y0));
    if o.y1 > o.y0 {
      NearestLast(Abs(o.x1 - o.x0), Abs(o.y1 - o.y0));
    }
  }

  /** Every painted cell lies in the bounding box of the endpoints. */
  lemma LineInBox(s: Segment, x: int, y: int)
    requires OnLine(s, x, y)
    ensures Min(s.x0, s.x1) <= x <= Max(s.x0, s.x1)
    ensures Min(s.y0, s.y1) <= y <= Max(s.y0, s.y1)
  {
    var o := Oriented(s);
    if MostlyHorizontal(s) {
      NearestRange(x - o.x0, Abs(o.y1 - o.y0), o.x1 - o.x0);
    } else {
      NearestRange(y - o.y0, Abs(o.x1 - o.x0), o.y1 - o.y0);
    }
  }

  /** So every painted cell of a segment with both endpoints in the image is in the image. */
  lemma LineInImage(s: Segment, width: nat, height: nat, x: int, y: int)
    requires InImage(width, height, s.x0, s.y0) && InImage(width, height, s.x1, s.y1)
    requires OnLine(s, x, y)
    ensures Min(s.x0, s.x1) <= x <= Max(s.x0, s.x1) && Min(s.y0, s.y1) <= y <= Max(s.y0, s.y1)
    ensures InImage(width, height, x, y)
  {
    LineInBox(s, x, y);
  }

  /** Drawing a segment backwards paints the same cells. */
  lemma LineReversible(s: Segment, x: int, y: int)
    ensures OnLine(Reverse(s), x, y) == OnLine(s, x, y)
  {
    var r := Reverse(s);
    assert MostlyHorizontal(r) == MostlyHorizontal(s);
    if MostlyHorizontal(s) {
      assert s.x0 != s.x1;
    } else if s.y0 == s.y1 {
      assert s.x0 == s.x1 && r == s;
    }
    assert Oriented(r) == Oriented(s);
  }

  /** Twice the signed area spanned by the segment and (x, y): zero exactly on the line. */
  function Deviation(s: Segment, x: int, y: int): int
  {
    (s.y1 - s.y0) * (x - s.x0) - (s.x1 - s.x0) * (y - s.y0)
  }

  /** Measured from the other endpoint the deviation only changes its sign. */
  lemma DeviationReversed(s: Segment, x: int, y: int)
    ensures Deviation(Reverse(s), x, y) == -Deviation(s, x, y)
  {
    var dv, dh := s.y1 - s.y0, s.x1 - s.x0;
    assert dv * ((x - s.x0) - dh) == dv * (x - s.x0) - dv * dh;
    assert dh * ((y - s.y0) - dv) == dh * (y - s.y0) - dh * dv;
  }

  /** The deviation of a cell k steps from the start in the direction of dv, for a line
      rising |dv| = m over d. */
  lemma OffsetDeviation(dv: int, d: int, j: int, k: int, m: nat)
    requires m == Abs(dv) && -d < 2 * m * j - 2 * d * k <= d
    ensures 2 * Abs(dv * j - d * Toward(0, dv, k)) <= d
  {
    if dv < 0 {
      assert dv * j - d * Toward(0, dv, k) == -(m * j - d * k);
    } else {
      assert dv * j - d * Toward(0, dv, k) == m * j - d * k;
    }
  }

  /** On a mostly horizontal segment the painted row is within half a pixel of the exact
      line through the endpoints. */
  lemma RowIsNearest(s: Segment, x: int)
    requires MostlyHorizontal(s)
    requires Min(s.x0, s.x1) <= x <= Max(s.x0, s.x1)
    ensures 2 * Abs(Deviation(s, x, RowAt(s, x))) <= Abs(s.x1 - s.x0)
  {
    var o := Oriented(s);
    var d, dv, j := o.x1 - o.x0, o.y1 - o.y0, x - o.x0;
    var k := Nearest(j, Abs(dv), d);
    NearestBounds(j, Abs(dv), d);
    OffsetDeviation(dv, d, j, k, Abs(dv));
    assert Deviation(o, x, RowAt(s, x)) == dv * j - d * Toward(0, dv, k);
    DeviationReversed(s, x, RowAt(s, x));
  }

  /** The mirror property for mostly vertical segments. */
  lemma ColumnIsNearest(s: Segment, y: int)
    requires !MostlyHorizontal(s)
    requires Min(s.y0, s.y1) <= y <= Max(s.y0, s.y1)
    ensures 2 * Abs(Deviation(s, ColumnAt(s, y), y)) <= Abs(s.y1 - s.y0)
  {
    var o := Oriented(s);
    var d, dh, j := o.y1 - o.y0, o.x1 - o.x0, y - o.y0;
    if d > 0 {
      var k := Nearest(j, Abs(dh), d);
      NearestBounds(j, Abs(dh), d);
      OffsetDeviation(dh, d, j, k, Abs(dh));
      assert Deviation(o, ColumnAt(s, y), y) == -(dh * j - d * Toward(0, dh, k));
    }
    DeviationReversed(s, ColumnAt(s, y), y);
  }

  /** The cells painted on segment s of a width x height buffer, as buffer indices. */
  predicate Painted(s: Segment, width: nat, height: nat, i: int)
  {
    0 <= i < width * height && OnLine(s, i % width, i / width)
  }

  /** The coordinate the stepper advances along: the column or the row of index i. */
  function Major(s: Segment, width: nat, i: int): int
  {
    if width == 0 then 0 else if MostlyHorizontal(s) then i % width else i / width
  }

  /** The stepper's progress: buffer a is a0 with the cells before major coordinate
      `bound` painted. */
  ghost predicate Done(a: seq<Word>, a0: seq<Word>, s: Segment, width: nat, height: nat,
                       plot: Word -> Word, bound: int)
  {
    |a| == |a0| &&
    forall i :: 0 <= i < |a| ==>
      a[i] == if Painted(s, width, height, i) && Major(s, width, i) < bound then plot(a0[i]) else a0[i]
  }

  /** Before the first cell nothing is painted. */
  lemma DoneStart(a: seq<Word>, s: Segment, width: nat, height: nat, plot: Word -> Word)
    ensures Done(a, a, s, width, height, plot, if MostlyHorizontal(s) then Oriented(s).x0 else Oriented(s).y0)
  {
  }

  /** Past the last cell everything on the segment is painted. */
  lemma DoneEnd(a: seq<Word>, a0: seq<Word>, s: Segment, width: nat, height: nat, plot: Word -> Word)
    requires Done(a, a0, s, width, height, plot, if MostlyHorizontal(s) then Oriented(s).x1 + 1 else Oriented(s).y1 + 1)
    ensures forall i :: 0 <= i < |a| ==> a[i] == if Painted(s, width, height, i) then plot(a0[i]) else a0[i]
  {
  }

  /** Painting cell (x, y), the only cell of its column (or row), advances the bound by one. */
  lemma DoneStep(a: seq<Word>, a0: seq<Word>, s: Segment, width: nat, height: nat,
                 plot: Word -> Word, x: int, y: int, p: int)
    requires |a| >= width * height && InImage(width, height, x, y) && OnLine(s, x, y)
    requires p == y * width + x
    requires Done(a, a0, s, width, height, plot, if MostlyHorizontal(s) then x else y)
    ensures 0 <= p < |a|
    ensures Done(a[p := plot(a[p])], a0, s, width, height, plot, if MostlyHorizontal(s) then x + 1 else y + 1)
  {
    CellInImage(width, height, x, y);
    var a' := a[p := plot(a[p])];
    var bound := if MostlyHorizontal(s) then x else y;
    CellPainted(s, width, height, x, y);
    forall i | 0 <= i < |a'|
      ensures a'[i] == if Painted(s, width, height, i) && Major(s, width, i) < bound + 1 then plot(a0[i]) else a0[i]
    {
      if i != p {
        OtherCell(s, width, height, x, y, i);
      }
    }
  }

  /** Cell (x, y) of the segment is painted, at major coordinate x (or y). */
  lemma CellPainted(s: Segment, width: nat, height: nat, x: int, y: int)
    requires InImage(width, height, x, y) && OnLine(s, x, y)
    ensures Painted(s, width, height, y * width + x)
    ensures Major(s, width, y * width + x) == if MostlyHorizontal(s) then x else y
  {
    CellInImage(width, height, x, y);
    CellIndex(width, y * width + x, x, y);
  }

  /** No other painted index shares the column (or row) of cell (x, y). */
  lemma OtherCell(s: Segment, width: nat, height: nat, x: int, y: int, i: int)
    requires InImage(width, height, x, y) && OnLine(s, x, y) && i != y * width + x
    ensures !(Painted(s, width, height, i) && Major(s, width, i) == if MostlyHorizontal(s) then x else y)
  {
    if Painted(s, width, height, i) {
      CellIndex(width, i, i % width, i / width);
      CellIndex(width, i, x, y);
    }
  }

  /** Painting one cell of the segment: `a` goes from the cells before (x, y) painted to
      the cells up to (x, y) painted. */
  method PlotCell(a: array<Word>, ghost a0: seq<Word>, width: nat, height: nat, s: Segment,
                  plot: Word -> Word, x: int, y: int, p: int)
    requires a.Length >= width * height && InImage(width, height, x, y) && OnLine(s, x, y)
    requires p == y * width + x
    requires Done(a[..], a0, s, width, height, plot, if MostlyHorizontal(s) then x else y)
    modifies a
    ensures Done(a[..], a0, s, width, height, plot, if MostlyHorizontal(s) then x + 1 else y + 1)
  {
    DoneStep(a[..], a0, s, width, height, plot, x, y, p);
    ghost var before := a[..];
    a[p] := plot(a[p]);
    assert a[..] == before[p := plot(before[p])];
  }

  /** The buffer after drawing segment s: every cell of the segment mapped by `plot`. */
  function Traced(a: seq<Word>, s: Segment, width: nat, height: nat, plot: Word -> Word): (r: seq<Word>)
    ensures |r| == |a|
  {
    seq(|a|, i requires 0 <= i < |a| => if Painted(s, width, height, i) then plot(a[i]) else a[i])
  }

  /** Every entry the stepper changes is a cell of the segment, inside the bounding box of
      its endpoints, so the entries past the pixels keep their values. */
  lemma TracedInBox(a: seq<Word>, s: Segment, width: nat, height: nat, plot: Word -> Word, i: int)
    requires InImage(width, height, s.x0, s.y0) && InImage(width, height, s.x1, s.y1)
    requires 0 <= i < |a| && Traced(a, s, width, height, plot)[i] != a[i]
    ensures i < width * height && OnLine(s, i % width, i / width)
    ensures Min(s.x0, s.x1) <= i % width <= Max(s.x0, s.x1) && Min(s.y0, s.y1) <= i / width <= Max(s.y0, s.y1)
  {
    LineInBox(s, i % width, i / width);
  }

  /** Both endpoints of the segment are mapped by `plot`. */
  lemma TracedEndpoints(a: seq<Word>, s: Segment, width: nat, height: nat, plot: Word -> Word)
    requires |a| >= width * height
    requires InImage(width, height, s.x0, s.y0) && InImage(width, height, s.x1, s.y1)
    ensures 0 <= s.y0 * width + s.x0 < |a| && 0 <= s.y1 * width + s.x1 < |a|
    ensures Traced(a, s, width, height, plot)[s.y0 * width + s.x0] == plot(a[s.y0 * width + s.x0])
    ensures Traced(a, s, width, height, plot)[s.y1 * width + s.x1] == plot(a[s.y1 * width + s.x1])
  {
    LineEndpoints(s);
    CellPainted(s, width, height, s.x0, s.y0);
    CellPainted(s, width, height, s.x1, s.y1);
  }

  /** The stepper: every cell of the segment gets `plot` applied to its old value, once,
      and every other entry keeps its value. */
  method Stepper(a: array<Word>, width: nat, height: nat, s: Segment, plot: Word -> Word)
    requires a.Length >= width * height
    requires InImage(width, height, s.x0, s.y0) && InImage(width, height, s.x1, s.y1)
    modifies a
    ensures a[..] == Traced(old(a[..]), s, width, height, plot)
  {
    if MostlyHorizontal(s) {
      StepColumns(a, width, height, s, plot);
    } else {
      StepRows(a, width, height, s, plot);
    }
    assert a[..] == Traced(old(a[..]), s, width, height, plot);
  }

  lemma Distribute(a: int, b: int, c: int)
    ensures (a + b) * c == a * c + b * c
  {
  }

  lemma Successor(c: int, a: int)
    ensures c * (a + 1) == c * a + c
  {
  }

  /** The column loop's invariant: (x - 1, y) is the last cell painted, k its offset from
      the start row, g the error term, ptr the index of (x, y). */
  ghost predicate ColumnLoop(s: Segment, width: nat, height: nat, x: int, y: int, k: int, g: int,
                             ptr: int, dv: nat, dh: nat, inc: int)
  {
    var o := Oriented(s);
    MostlyHorizontal(s) && InImage(width, height, s.x0, s.y0) && InImage(width, height, s.x1, s.y1) &&
    dh == o.x1 - o.x0 && dv == Abs(o.y1 - o.y0) && inc == Step(o.y1 - o.y0) &&
    o.x0 + 1 <= x <= o.x1 + 1 && k == Nearest(x - 1 - o.x0, dv, dh) && y == Toward(o.y0, o.y1 - o.y0, k) &&
    g == 2 * dv * (x - o.x0) - 2 * dh * k - dh && ptr == y * width + x
  }

  /** The column loop's state after the start cell has been painted. */
  lemma ColumnStart(s: Segment, width: nat, height: nat)
    requires MostlyHorizontal(s)
    requires InImage(width, height, s.x0, s.y0) && InImage(width, height, s.x1, s.y1)
    ensures var o := Oriented(s);
      var dh, dv := o.x1 - o.x0, Abs(o.y1 - o.y0);
      OnLine(s, o.x0, o.y0) && InImage(width, height, o.x0, o.y0) &&
      ColumnLoop(s, width, height, o.x0 + 1, o.y0, 0, 2 * dv - dh, o.y0 * width + o.x0 + 1, dv, dh, Step(o.y1 - o.y0))
  {
    var o := Oriented(s);
    LineEndpoints(s);
    NearestFirst(Abs(o.y1 - o.y0), o.x1 - o.x0);
    Successor(width, o.y0);
  }

  /** One iteration of the column loop: when G > 0 the row moves by inc, and either way the
      cell reached is the segment's cell of column x, inside the bounding box. */
  lemma ColumnIteration(s: Segment, width: nat, height: nat, x: int, y: int, k: int, g: int,
                        ptr: int, dv: nat, dh: nat, inc: int)
    requires ColumnLoop(s, width, height, x, y, k, g, ptr, dv, dh, inc) && x <= Oriented(s).x1
    ensures var up := g > 0;
      var y', k' := if up then y + inc else y, if up then k + 1 else k;
      var g' := if up then g + 2 * (dv - dh) else g + 2 * dv;
      var ptr' := if up then ptr + (if inc < 0 then -(width as int) else width) else ptr;
      OnLine(s, x, y') && InImage(width, height, x, y') &&
      Min(s.x0, s.x1) <= x <= Max(s.x0, s.x1) && Min(s.y0, s.y1) <= y' <= Max(s.y0, s.y1) &&
      ptr' == y' * width + x &&
      ColumnLoop(s, width, height, x + 1, y', k', g', ptr' + 1, dv, dh, inc)
  {
    var o := Oriented(s);
    NearestStep(x - 1 - o.x0, dv, dh);
    Successor(2 * dv, x - o.x0);
    Successor(2 * dh, k);
    Distribute(y, inc, width);
    var y' := if g > 0 then y + inc else y;
    assert y' == RowAt(s, x);
    LineInImage(s, width, height, x, y');
    Distribute(y', 1, width);
  }

  /** The row loop's invariant, the mirror of `ColumnLoop`. */
  ghost predicate RowLoop(s: Segment, width: nat, height: nat, x: int, y: int, k: int, g: int,
                          ptr: int, dh: nat, dv: nat, inc: int)
  {
    var o := Oriented(s);
    !MostlyHorizontal(s) && InImage(width, height, s.x0, s.y0) && InImage(width, height, s.x1, s.y1) &&
    dv == o.y1 - o.y0 && dh == Abs(o.x1 - o.x0) && inc == Step(o.x1 - o.x0) &&
    o.y0 + 1 <= y <= o.y1 + 1 && k == Nearest(y - 1 - o.y0, dh, dv) && x == Toward(o.x0, o.x1 - o.x0, k) &&
    g == 2 * dh * (y - o.y0) - 2 * dv * k - dv && ptr == y * width + x
  }

  /** The row loop's state after the start cell has been painted. */
  lemma RowStart(s: Segment, width: nat, height: nat)
    requires !MostlyHorizontal(s)
    requires InImage(width, height, s.x0, s.y0) && InImage(width, height, s.x1, s.y1)
    ensures var o := Oriented(s);
      var dh, dv := Abs(o.x1 - o.x0), o.y1 - o.y0;
      OnLine(s, o.x0, o.y0) && InImage(width, height, o.x0, o.y0) &&
      RowLoop(s, width, height, o.x0, o.y0 + 1, 0, 2 * dh - dv, o.y0 * width + o.x0 + width, dh, dv, Step(o.x1 - o.x0))
  {
    var o := Oriented(s);
    LineEndpoints(s);
    NearestFirst(Abs(o.x1 - o.x0), o.y1 - o.y0);
    Distribute(o.y0, 1, width);
  }

  lemma RowIteration(s: Segment, width: nat, height: nat, x: int, y: int, k: int, g: int,
                     ptr: int, dh: nat, dv: nat, inc: int)
    requires RowLoop(s, width, height, x, y, k, g, ptr, dh, dv, inc) && y <= Oriented(s).y1
    ensures var up := g > 0;
      var x', k' := if up then x + inc else x, if up then k + 1 else k;
      var g' := if up then g + 2 * (dh - dv) else g + 2 * dh;
      var ptr' := if up then ptr + inc else ptr;
      OnLine(s, x', y) && InImage(width, height, x', y) &&
      Min(s.x0, s.x1) <= x' <= Max(s.x0, s.x1) && Min(s.y0, s.y1) <= y <= Max(s.y0, s.y1) &&
      ptr' == y * width + x' &&
      RowLoop(s, width, height, x', y + 1, k', g', ptr' + width, dh, dv, inc)
  {
    var o := Oriented(s);
    NearestStep(y - 1 - o.y0, dh, dv);
    Successor(2 * dh, y - o.y0);
    Successor(2 * dv, k);
    var x' := if g > 0 then x + inc else x;
    assert x' == ColumnAt(s, y);
    LineInImage(s, width, height, x', y);
    Distribute(y, 1, width);
  }

  /** One pass of the column loop: move one row when G > 0, then paint the cell of
      column x. */
  method ColumnCell(a: array<Word>, ghost a0: seq<Word>, width: nat, height: nat, s: Segment, plot: Word -> Word,
                    x: int, y: int, ghost k: int, g: int, p: int, dv: nat, dh: nat, inc: int, rowAdd: int)
    returns (y': int, ghost k': int, g': int, p': int)
    requires a.Length >= width * height && ColumnLoop(s, width, height, x, y, k, g, p, dv, dh, inc)
    requires x <= Oriented(s).x1 && rowAdd == (if inc < 0 then -(width as int) else width)
    requires Done(a[..], a0, s, width, height, plot, x)
    modifies a
    ensures ColumnLoop(s, width, height, x + 1, y', k', g', p', dv, dh, inc)
    ensures Done(a[..], a0, s, width, height, plot, x + 1)
  {
    ColumnIteration(s, width, height, x, y, k, g, p, dv, dh, inc);
    y', k', g', p' := y, k, g, p;
    if g' > 0 {
      g' := g' + 2 * (dv - dh);
      k' := k' + 1;
      y' := y' + inc;
      p' := p' + rowAdd;
      if x < Min(s.x0, s.x1) || y' < Min(s.y0, s.y1) || x > Max(s.x0, s.x1) || y' > Max(s.y0, s.y1) {
        // the source leaves the loop here; the cell reached is always in the box
        assert false;
      }
    } else {
      g' := g' + 2 * dv;
    }
    PlotCell(a, a0, width, height, s, plot, x, y', p');
    p' := p' + 1;
  }

  /** The mostly horizontal loop: one cell per column, moving one row when G > 0. */
  method StepColumns(a: array<Word>, width: nat, height: nat, s: Segment, plot: Word -> Word)
    requires a.Length >= width * height && MostlyHorizontal(s)
    requires InImage(width, height, s.x0, s.y0) && InImage(width, height, s.x1, s.y1)
    modifies a
    ensures forall i :: 0 <= i < a.Length ==>
      a[i] == if Painted(s, width, height, i) then plot(old(a[i])) else old(a[i])
  {
    var o := Oriented(s);
    var dh, dv := o.x1 - o.x0, o.y1 - o.y0;
    var inc: int, rowAdd: int := 1, width;
    if dv < 0 {
      dv, inc, rowAdd := -dv, -1, -(width as int);
    }
    ColumnStart(s, width, height);
    ghost var a0 := a[..];
    DoneStart(a0, s, width, height, plot);
    var ptr := o.y0 * width + o.x0;
    PlotCell(a, a0, width, height, s, plot, o.x0, o.y0, ptr);
    ptr := ptr + 1;
    var curY, curX := o.y0, o.x0 + 1;
    var g := 2 * dv - dh;
    ghost var k := 0;
    while curX <= o.x1
      invariant ColumnLoop(s, width, height, curX, curY, k, g, ptr, dv, dh, inc)
      invariant rowAdd == (if inc < 0 then -(width as int) else width)
      invariant Done(a[..], a0, s, width, height, plot, curX)
    {
      curY, k, g, ptr := ColumnCell(a, a0, width, height, s, plot, curX, curY, k, g, ptr, dv, dh, inc, rowAdd);
      curX := curX + 1;
    }
    DoneEnd(a[..], a0, s, width, height, plot);
  }

  /** One pass of the row loop: move one column when G > 0, then paint the cell of row y. */
  method RowCell(a: array<Word>, ghost a0: seq<Word>, width: nat, height: nat, s: Segment, plot: Word -> Word,
                 x: int, y: int, ghost k: int, g: int, p: int, dh: nat, dv: nat, inc: int)
    returns (x': int, ghost k': int, g': int, p': int)
    requires a.Length >= width * height && RowLoop(s, width, height, x, y, k, g, p, dh, dv, inc)
    requires y <= Oriented(s).y1
    requires Done(a[..], a0, s, width, height, plot, y)
    modifies a
    ensures RowLoop(s, width, height, x', y + 1, k', g', p', dh, dv, inc)
    ensures Done(a[..], a0, s, width, height, plot, y + 1)
  {
    RowIteration(s, width, height, x, y, k, g, p, dh, dv, inc);
    x', k', g', p' := x, k, g, p;
    if g' > 0 {
      g' := g' + 2 * (dh - dv);
      k' := k' + 1;
      x' := x' + inc;
      p' := p' + inc;
      if x' < Min(s.x0, s.x1) || y < Min(s.y0, s.y1) || x' > Max(s.x0, s.x1) || y > Max(s.y0, s.y1) {
        // the source leaves the loop here; the cell reached is always in the box
        assert false;
      }
    } else {
      g' := g' + 2 * dh;
    }
    PlotCell(a, a0, width, height, s, plot, x', y, p');
    p' := p' + width;
  }

  /** The mostly vertical loop: one cell per row, moving one column when G > 0. */
  method StepRows(a: array<Word>, width: nat, height: nat, s: Segment, plot: Word -> Word)
    requires a.Length >= width * height && !MostlyHorizontal(s)
    requires InImage(width, height, s.x0, s.y0) && InImage(width, height, s.x1, s.y1)
    modifies a
    ensures forall i :: 0 <= i < a.Length ==>
      a[i] == if Painted(s, width, height, i) then plot(old(a[i])) else old(a[i])
  {
    var o := Oriented(s);
    var dh, dv := o.x1 - o.x0, o.y1 - o.y0;
    var inc: int := 1;
    if dh < 0 {
      dh, inc := -dh, -1;
    }
    RowStart(s, width, height);
    ghost var a0 := a[..];
    DoneStart(a0, s, width, height, plot);
    var ptr := o.y0 * width + o.x0;
    PlotCell(a, a0, width, height, s, plot, o.x0, o.y0, ptr);
    ptr := ptr + width;
    var curX, curY := o.x0, o.y0 + 1;
    var g := 2 * dh - dv;
    ghost var k := 0;
    while curY <= o.y1
      invariant RowLoop(s, width, height, curX, curY, k, g, ptr, dh, dv, inc)
      invariant Done(a[..], a0, s, width, height, plot, curY)
    {
      curX, k, g, ptr := RowCell(a, a0, width, height, s, plot, curX, curY, k, g, ptr, dh, dv, inc);
      curY := curY + 1;
    }
    DoneEnd(a[..], a0, s, width, height, plot);
  }
}

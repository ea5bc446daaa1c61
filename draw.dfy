/** What the drawing operations of `MemoryImage` do to one pixel, and so to the whole
    buffer: `FillRect` and `ClearRect` map the cells of a rectangle, the line drawers the
    cells of a segment. */
module Draw {
  import opened Bits
  import opened Pixel
  import opened Blend
  import opened LinePixel
  import opened Grid
  import opened Paint
  import Line

  /** n pixels of 0: fully transparent black. */
  function Zeros(n: nat): (r: seq<Word>)
    ensures |r| == n
  {
    seq(n, i => 0)
  }

  /** A colour that is not opaque composited over `dest` by `FillRect`. The source divides
      by the new alpha, which is 0 when both alphas are; `FillRect` excludes that case and
      the pixel is kept here. */
  function Composite(dest: Word, c: Color): Word
  {
    PackChannels(c.alpha, c.red, c.green, c.blue);
    if c.alpha > 0 || AlphaOf(dest) > 0 then FillPixel(dest, ToInt(c)) else dest
  }

  /** `FillRect`'s pixel: an opaque colour is stored as it is, any other is composited. */
  function FillWith(c: Color): Word -> Word
  {
    if c.alpha == 255 then (_: Word) => ToInt(c) else (dest: Word) => Composite(dest, c)
  }

  /** `ClearRect`'s pixel. */
  function Erase(): Word -> Word
  {
    (_: Word) => 0
  }

  /** The pixel `FillRect` writes has an alpha between the larger of the two alphas and
      255, and it is 255 exactly when one of them is. */
  lemma FillAlpha(c: Color, dest: Word)
    requires c.alpha > 0 || AlphaOf(dest) > 0
    ensures AlphaOf(dest) <= AlphaOf(FillWith(c)(dest)) && c.alpha <= AlphaOf(FillWith(c)(dest))
    ensures AlphaOf(FillWith(c)(dest)) == 255 <==> AlphaOf(dest) == 255 || c.alpha == 255
  {
    PackChannels(c.alpha, c.red, c.green, c.blue);
    if c.alpha != 255 {
      FillPixelChannels(dest, ToInt(c));
    }
  }

  /** An opaque colour replaces every cell of the rectangle by the colour itself. */
  lemma FillOpaque(a: seq<Word>, width: nat, height: nat, r: Rect, c: Color, col: int, row: int)
    requires c.alpha == 255 && |a| >= width * height && Fits(r, width, height)
    requires r.x <= col < r.x + r.width && r.y <= row < r.y + r.height
    ensures 0 <= row * width + col < width * height
    ensures PaintedRect(a, width, height, r, FillWith(c))[row * width + col] == ToInt(c)
  {
    PaintedRectCells(a, width, height, r, FillWith(c), col, row);
  }

  /** So filling twice with an opaque colour is filling once. */
  lemma FillOpaqueTwice(a: seq<Word>, width: nat, height: nat, r: Rect, c: Color)
    requires c.alpha == 255
    ensures PaintedRect(PaintedRect(a, width, height, r, FillWith(c)), width, height, r, FillWith(c))
         == PaintedRect(a, width, height, r, FillWith(c))
  {
    var once := PaintedRect(a, width, height, r, FillWith(c));
    var twice := PaintedRect(once, width, height, r, FillWith(c));
    forall i | 0 <= i < |a|
      ensures twice[i] == once[i]
    {
    }
  }

  /** A fully transparent colour leaves every pixel that is not itself fully transparent
      as it was. */
  lemma FillTransparent(a: seq<Word>, width: nat, height: nat, r: Rect, c: Color)
    requires c.alpha == 0
    requires forall i :: 0 <= i < |a| && InRect(r, width, height, i) ==> AlphaOf(a[i]) > 0
    ensures PaintedRect(a, width, height, r, FillWith(c)) == a
  {
    PackChannels(c.alpha, c.red, c.green, c.blue);
    var filled := PaintedRect(a, width, height, r, FillWith(c));
    forall i | 0 <= i < |a|
      ensures filled[i] == a[i]
    {
      if InRect(r, width, height, i) {
        FillTransparentKeeps(a[i], ToInt(c));
      }
    }
  }

  /** Clearing the rectangle that covers the whole image is `Clear`. */
  lemma ClearWhole(a: seq<Word>, width: nat, height: nat)
    requires |a| == width * height
    ensures PaintedRect(a, width, height, Rect(0, 0, width, height), Erase()) == Zeros(|a|)
  {
    var cleared := PaintedRect(a, width, height, Rect(0, 0, width, height), Erase());
    forall i | 0 <= i < |a|
      ensures cleared[i] == 0
    {
      DivAtMost(i, width, height - 1);
    }
  }

  /** The entries below n of a painted buffer are the painted first n entries. */
  lemma PaintedRectPrefix(a: seq<Word>, n: nat, width: nat, height: nat, r: Rect, paint: Word -> Word)
    requires n <= |a|
    ensures PaintedRect(a, width, height, r, paint)[..n] == PaintedRect(a[..n], width, height, r, paint)
  {
  }

  /** The entries below n of a traced buffer are the traced first n entries. */
  lemma TracedPrefix(a: seq<Word>, n: nat, s: Line.Segment, width: nat, height: nat, plot: Word -> Word)
    requires n <= |a|
    ensures Line.Traced(a, s, width, height, plot)[..n] == Line.Traced(a[..n], s, width, height, plot)
  {
  }

  /** The pixel `NormalDrawLine` writes: the rounded colour for an opaque line, the
      translucent blend otherwise. */
  function NormalPlot(c: Color): Word -> Word
  {
    if c.alpha == 255 then (_: Word) => OpaqueLineColor(c) else (dest: Word) => LineBlend(dest, c)
  }

  /** The pixel `AdditiveDrawLine` writes, through the saturation table. */
  function AdditivePlot(table: MaxTable, c: Color): Word -> Word
  {
    (dest: Word) => AdditivePixel(table, dest, c)
  }

  /** Every pixel a normal line writes is opaque. */
  lemma NormalPlotOpaque(c: Color, dest: Word)
    ensures AlphaOf(NormalPlot(c)(dest)) == 255
  {
    if c.alpha == 255 {
      OpaqueLineColorClose(c);
    } else {
      var a := c.alpha;
      ChannelSum(c.red, a, RedOf(dest));
      ChannelSum(c.green, a, GreenOf(dest));
      ChannelSum(c.blue, a, BlueOf(dest));
      PackChannels(255, Scale(Premul(c.red, a)) + Shade(RedOf(dest), a), Scale(Premul(c.green, a)) + Shade(GreenOf(dest), a),
                   Scale(Premul(c.blue, a)) + Shade(BlueOf(dest), a));
    }
  }

  /** Every pixel an additive line writes is opaque, whatever the table holds. */
  lemma AdditivePlotOpaque(table: MaxTable, c: Color, dest: Word)
    ensures AlphaOf(AdditivePlot(table, c)(dest)) == 255
  {
    PackChannels(255, table[RedOf(dest) + AddAmount(c.red, c.alpha)], table[GreenOf(dest) + AddAmount(c.green, c.alpha)],
                 table[BlueOf(dest) + AddAmount(c.blue, c.alpha)]);
  }

  /** After a normal line every pixel is as it was or opaque. */
  lemma NormalLineOpaque(a: seq<Word>, s: Line.Segment, width: nat, height: nat, c: Color)
    ensures forall i :: 0 <= i < |a| ==>
      var t := Line.Traced(a, s, width, height, NormalPlot(c)); t[i] == a[i] || AlphaOf(t[i]) == 255
  {
    forall i | 0 <= i < |a|
      ensures var t := Line.Traced(a, s, width, height, NormalPlot(c)); t[i] == a[i] || AlphaOf(t[i]) == 255
    {
      NormalPlotOpaque(c, a[i]);
    }
  }

  /** After an additive line every pixel is as it was or opaque. */
  lemma AdditiveLineOpaque(a: seq<Word>, s: Line.Segment, width: nat, height: nat, table: MaxTable, c: Color)
    ensures forall i :: 0 <= i < |a| ==>
      var t := Line.Traced(a, s, width, height, AdditivePlot(table, c)); t[i] == a[i] || AlphaOf(t[i]) == 255
  {
    forall i | 0 <= i < |a|
      ensures var t := Line.Traced(a, s, width, height, AdditivePlot(table, c)); t[i] == a[i] || AlphaOf(t[i]) == 255
    {
      AdditivePlotOpaque(table, c, a[i]);
    }
  }

  /** A horizontal or vertical segment: `DrawLine` hands it to `FillRect`. */
  predicate AxisAligned(s: Line.Segment)
  {
    s.y0 == s.y1 || s.x0 == s.x1
  }

  /** The one pixel thick rectangle `DrawLine` fills for an axis-aligned segment. */
  function AxisRect(s: Line.Segment): Rect
  {
    if s.y0 == s.y1 then
      Rect(Line.Min(s.x0, s.x1), s.y0, Line.Max(s.x0, s.x1) - Line.Min(s.x0, s.x1) + 1, s.y1 - s.y0 + 1)
    else
      Rect(s.x0, Line.Min(s.y0, s.y1), s.x1 - s.x0 + 1, Line.Max(s.y0, s.y1) - Line.Min(s.y0, s.y1) + 1)
  }

  /** The rectangle lies in the image when the endpoints do. */
  lemma AxisRectFits(s: Line.Segment, width: nat, height: nat)
    requires AxisAligned(s)
    requires InImage(width, height, s.x0, s.y0) && InImage(width, height, s.x1, s.y1)
    ensures Fits(AxisRect(s), width, height)
  {
  }

  /** The rectangle holds exactly the cells the stepper would have painted for the same
      segment: the delegation to `FillRect` draws the same line. */
  lemma AxisRectIsLine(s: Line.Segment, width: nat, height: nat, i: int)
    requires AxisAligned(s)
    ensures InRect(AxisRect(s), width, height, i) <==> Line.Painted(s, width, height, i)
  {
    var o := Line.Oriented(s);
    if s.y0 == s.y1 && s.x0 != s.x1 {
      assert Line.MostlyHorizontal(s);
      forall x | o.x0 <= x <= o.x1
        ensures Line.RowAt(s, x) == s.y0
      {
        Line.NearestUnique(x - o.x0, 0, o.x1 - o.x0, 0);
      }
    } else {
      assert !Line.MostlyHorizontal(s);
      forall y | o.y0 <= y <= o.y1
        ensures Line.ColumnAt(s, y) == s.x0
      {
        if o.y1 > o.y0 {
          Line.NearestUnique(y - o.y0, 0, o.y1 - o.y0, 0);
        }
      }
    }
  }
}

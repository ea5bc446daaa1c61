/** The run-length table `GetRLAdditiveData` derives from the native pixels.  Every pixel
    is classed as coloured or black by its red, green and blue bits.  Per row, the table
    holds one byte per pixel: the number of pixels from it to the end of its run of
    equal class, capped at 255.  A blitter can thus skip a whole black run, or blend a
    whole coloured run, from one byte. */
module Rle {
  import opened Bits

  /** `(px & 0xFFFFFF) != 0`: the pixel has some colour. */
  predicate Colored(px: Word)
  {
    And(px, 0xFF_FFFF) != 0
  }

  /** The bytes are capped at 255. */
  function Cap(n: nat): Byte
  {
    if n >= 255 then 255 else n
  }

  /** The number of pixels from j to the end of its same-class run within the row. */
  function RunLength(row: seq<Word>, j: nat): (n: nat)
    requires j < |row|
    ensures 1 <= n <= |row| - j
    decreases |row| - j
  {
    if j + 1 < |row| && Colored(row[j + 1]) == Colored(row[j]) then 1 + RunLength(row, j + 1) else 1
  }

  /** The table bytes of one row. */
  function RowCode(row: seq<Word>): (code: seq<Byte>)
    ensures |code| == |row|
  {
    seq(|row|, j requires 0 <= j < |row| => Cap(RunLength(row, j)))
  }

  /** The table of a width x height image, row after row. */
  function ImageCode(pixels: seq<Word>, width: nat, height: nat): (code: seq<Byte>)
    requires |pixels| == width * height
    ensures |code| == width * height
  {
    if height == 0 then []
    else
      RowsPrefix(width, height);
      ImageCode(pixels[..width * (height - 1)], width, height - 1) + RowCode(pixels[width * (height - 1)..])
  }

  lemma RowsPrefix(width: nat, height: nat)
    requires height > 0
    ensures 0 <= width * (height - 1) <= width * height
    ensures width * height - width * (height - 1) == width
  {
    MulNonneg(width, height - 1);
    assert width * height == width * (height - 1) + width;
  }

  /** A maximal run of len pixels of one class starting at `start` is coded as a
      countdown: len, len - 1, ..., 1, capped. */
  lemma {:induction false} RunCode(row: seq<Word>, start: nat, len: nat)
    requires 1 <= len && start + len <= |row|
    requires forall t :: start <= t < start + len ==> Colored(row[t]) == Colored(row[start])
    requires start + len == |row| || Colored(row[start + len]) != Colored(row[start])
    ensures forall t :: start <= t < start + len ==> RowCode(row)[t] == Cap(start + len - t)
  {
    RunLengths(row, start, len);
  }

  lemma {:induction false} RunLengths(row: seq<Word>, start: nat, len: nat)
    requires 1 <= len && start + len <= |row|
    requires forall t :: start <= t < start + len ==> Colored(row[t]) == Colored(row[start])
    requires start + len == |row| || Colored(row[start + len]) != Colored(row[start])
    ensures forall t :: start <= t < start + len ==> RunLength(row, t) == start + len - t
    decreases len
  {
    if len > 1 {
      RunLengths(row, start + 1, len - 1);
      assert Colored(row[start + 1]) == Colored(row[start]);
    }
  }

  /** A row's last byte is 1. */
  lemma RowEndsWithOne(row: seq<Word>)
    requires |row| > 0
    ensures RowCode(row)[|row| - 1] == 1
  {
  }

  /** Every byte is between 1 and 255, and never reaches past the end of its row. */
  lemma {:induction false} CodeBounds(row: seq<Word>, j: nat)
    requires j < |row|
    ensures 1 <= RowCode(row)[j] <= 255 && j + RowCode(row)[j] <= |row|
  {
  }

  /** Reading a byte n at j, the n pixels j .. j + n - 1 all have the class of pixel j; and
      when n < 255 the run really ends there. */
  lemma CodeIsRun(row: seq<Word>, j: nat)
    requires j < |row|
    ensures var n := RowCode(row)[j];
      (forall t :: j <= t < j + n ==> Colored(row[t]) == Colored(row[j])) &&
      (n < 255 ==> j + n == |row| || Colored(row[j + n]) != Colored(row[j]))
  {
    RunIsMaximal(row, j);
  }

  /** RunLength(row, j) pixels share the class of pixel j, and the next one, if any, does not. */
  lemma {:induction false} RunIsMaximal(row: seq<Word>, j: nat)
    requires j < |row|
    ensures forall t :: j <= t < j + RunLength(row, j) ==> Colored(row[t]) == Colored(row[j])
    ensures j + RunLength(row, j) == |row| || Colored(row[j + RunLength(row, j)]) != Colored(row[j])
    decreases |row| - j
  {
    if j + 1 < |row| && Colored(row[j + 1]) == Colored(row[j]) {
      RunIsMaximal(row, j + 1);
    }
  }

  /** The row bytes do not add up to the row width: a run of two pixels is coded 2, 1. */
  lemma CodeSumExceedsWidth()
    ensures RowCode([0xFF, 0xFF]) == [2, 1]
  {
    var row: seq<Word> := [0xFF, 0xFF];
    assert Colored(0xFF) by {
      Pow2Values();
      AndLowMask(0xFF, 24, 0x100_0000);
    }
    assert RunLength(row, 1) == 1;
    assert RunLength(row, 0) == 2;
  }

  /** With width 1 every byte is 1: the table is the source's `memset(.., 1, height)`. */
  lemma {:induction false} WidthOneCode(pixels: seq<Word>, height: nat)
    requires |pixels| == height
    ensures ImageCode(pixels, 1, height) == seq(height, i => 1)
  {
    if height > 0 {
      WidthOneCode(pixels[..height - 1], height - 1);
    }
  }

  /** The table has one byte per pixel, row by row: bytes width * row .. width * row +
      width - 1 are the code of that row alone. */
  lemma {:induction false} ImageCodeRows(pixels: seq<Word>, width: nat, height: nat, row: nat)
    requires |pixels| == width * height && row < height
    ensures 0 <= width * row && width * row + width <= width * height
    ensures ImageCode(pixels, width, height)[width * row..width * row + width]
      == RowCode(pixels[width * row..width * row + width])
  {
    RowsPrefix(width, height);
    var top := width * (height - 1);
    var code := ImageCode(pixels, width, height);
    var upper := ImageCode(pixels[..top], width, height - 1);
    assert code == upper + RowCode(pixels[top..]);
    if row < height - 1 {
      ImageCodeRows(pixels[..top], width, height - 1, row);
      assert code[width * row..width * row + width] == upper[width * row..width * row + width];
      assert pixels[..top][width * row..width * row + width] == pixels[width * row..width * row + width];
    } else {
      assert width * row == top && top + width == |pixels|;
      assert pixels[top..] == pixels[top..top + width];
      assert code[top..top + width] == RowCode(pixels[top..]);
    }
  }

  /** The countdown loop: writes n, n - 1, ..., 1, capped at 255, from p0 on and returns
      the position after them. */
  method EmitRun(data: array<Byte>, p0: nat, n: nat) returns (p: nat)
    requires p0 + n <= data.Length
    modifies data
    ensures p == p0 + n
    ensures forall t :: 0 <= t < data.Length && !(p0 <= t < p) ==> data[t] == old(data[t])
    ensures forall t :: p0 <= t < p ==> data[t] == Cap(p - t)
  {
    p := p0;
    var i := n;
    while i > 0
      invariant 0 <= i <= n && p == p0 + (n - i)
      invariant forall t :: 0 <= t < data.Length && !(p0 <= t < p) ==> data[t] == old(data[t])
      invariant forall t :: p0 <= t < p ==> data[t] == Cap(p0 + n - t)
    {
      data[p] := if i >= 255 then 255 else i;
      p := p + 1;
      i := i - 1;
    }
  }

  /** One iteration of the row loop: reads `width` pixels starting at `start` and writes
      their bytes at the same position. */
  method EncodeRow(data: array<Byte>, pixels: seq<Word>, start: nat, width: nat)
    requires width >= 2 && start + width <= |pixels| && start + width <= data.Length
    modifies data
    ensures data[..start] == old(data[..start]) && data[start + width..] == old(data[start + width..])
    ensures data[start..start + width] == RowCode(pixels[start..start + width])
  {
    ghost var row := pixels[start..start + width];
    var wp := start;
    var rp := start;
    var rCount, rlCount := 1, 1;
    var lastClass := Colored(pixels[rp]);
    rp := rp + 1;
    while rCount < width
      invariant 1 <= rCount <= width && rp == start + rCount
      invariant 1 <= rlCount <= rCount
      invariant start <= wp <= start + width
      invariant rCount < width ==> wp == start + rCount - rlCount
      invariant rCount < width ==> lastClass == Colored(row[rCount - 1])
      invariant rCount < width ==> forall t :: rCount - rlCount <= t < rCount ==> Colored(row[t]) == lastClass
      invariant rCount == width ==> wp == start + width
      invariant forall t :: 0 <= t < data.Length && !(start <= t < start + width) ==> data[t] == old(data[t])
      invariant forall t :: start <= t < wp ==> data[t] == RowCode(row)[t - start]
    {
      rCount := rCount + 1;
      var thisClass := Colored(pixels[rp]);
      rp := rp + 1;
      if thisClass != lastClass || rCount == width {
        if thisClass == lastClass {
          rlCount := rlCount + 1;
        }
        RunCode(row, wp - start, rlCount);
        wp := EmitRun(data, wp, rlCount);
        if rCount == width && thisClass != lastClass {
          RowEndsWithOne(row);
          data[wp] := 1;
          wp := wp + 1;
        }
        lastClass := thisClass;
        rlCount := 1;
      } else {
        rlCount := rlCount + 1;
      }
    }
    assert data[start..start + width] == RowCode(row);
    assert data[..start] == old(data[..start]);
    assert data[start + width..] == old(data[start + width..]);
  }

  /** The table of the whole image: `GetRLAdditiveData`'s loops over its pixels. */
  method EncodeRuns(pixels: seq<Word>, width: nat, height: nat) returns (data: array<Byte>)
    requires |pixels| == width * height && (height > 0 ==> width > 0)
    ensures fresh(data) && data[..] == ImageCode(pixels, width, height)
  {
    data := new Byte[width * height];
    if width == 1 {
      forall i | 0 <= i < height {
        data[i] := 1;
      }
      WidthOneCode(pixels, height);
    } else {
      var row, at := 0, 0;
      while row < height
        invariant 0 <= row <= height && at == width * row && at <= |pixels|
        invariant data[..at] == ImageCode(pixels[..at], width, row)
      {
        ImageRowStep(pixels, width, height, row, at);
        ghost var before := data[..];
        EncodeRow(data, pixels, at, width);
        assert data[..at + width] == before[..at] + data[at..at + width];
        row, at := row + 1, at + width;
      }
      assert pixels[..at] == pixels;
    }
  }

  /** The image table of the first row + 1 rows extends that of the first rows by one row. */
  lemma ImageRowStep(pixels: seq<Word>, width: nat, height: nat, row: nat, at: nat)
    requires |pixels| == width * height && row < height && at == width * row
    ensures at + width == width * (row + 1) <= |pixels|
    ensures ImageCode(pixels[..at + width], width, row + 1)
      == ImageCode(pixels[..at], width, row) + RowCode(pixels[at..at + width])
  {
    MulAtMost(row + 1, height, width);
    assert width * (row + 1) == width * row + width;
    assert (row + 1) * width == width * (row + 1) && height * width == width * height;
    var p := pixels[..at + width];
    assert p[..at] == pixels[..at];
    assert p[at..] == pixels[at..at + width];
  }
}

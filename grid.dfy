/** Row-major pixel buffers: cell (x, y) of a width x height image is entry y * width + x. */
module Grid {
  import opened Bits

  /** Cell (x, y) lies in the image. */
  predicate InImage(width: nat, height: nat, x: int, y: int)
  {
    0 <= x < width && 0 <= y < height
  }

  /** Index arithmetic of a row-major buffer: index y * width + x is the cell (x, y). */
  lemma CellIndex(width: nat, i: int, x: int, y: int)
    requires 0 <= x < width && 0 <= y && 0 <= i
    ensures i == y * width + x <==> (i % width == x && i / width == y)
  {
    if i == y * width + x {
      DivModUnique(i, width, y, x);
    }
  }

  lemma CellInImage(width: nat, height: nat, x: int, y: int)
    requires 0 <= x < width && 0 <= y < height
    ensures 0 <= y * width + x < width * height
  {
    MulAtMost(y + 1, height, width);
  }
}

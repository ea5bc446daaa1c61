/** `FillScanLinesWithCoverage`: spans of pixels filled with a colour whose alpha is scaled
    by a coverage mask.  Within a span the coverage position moves on every pixel, but the
    write position moves only after a pixel is actually written, that is when the scaled
    alpha is positive; this module states that behaviour as it is.

    The loops are stated for any per-pixel blend; `Over` is the one the image uses. */
module Coverage {
  import opened Bits
  import opened Pixel
  import opened Blend

  /** A horizontal run of pixels: `Span`. */
  datatype Span = Span(x: int, y: int, width: int)

  /** The blend of the coverage fill: colour `src` at a positive alpha over a pixel.  The
      mask-and-shift expression the source writes is `CoverExpr`, which computes
      `CoverPixel` (`CoverExprIsCoverPixel`). */
  function Over(src: Word): (Word, Byte) -> Word
  {
    (dest: Word, a: Byte) => if a > 0 then CoverPixel(dest, src, a) else dest
  }

  /** The number of the k coverage values from `cs` on whose scaled alpha is positive: how
      far the write position moves over them. */
  function Advance(coverage: seq<Byte>, cs: nat, k: nat, alpha: Byte): (n: nat)
    requires cs + k <= |coverage|
    ensures n <= k
  {
    if k == 0 then 0
    else Advance(coverage, cs, k - 1, alpha) + if CoverAlpha(coverage[cs + k - 1], alpha) > 0 then 1 else 0
  }

  /** The pixels after the first k iterations of one span's loop, reading coverage values
      from `cs` and writing from `start`. */
  function CoverRun(pixels: seq<Word>, start: nat, coverage: seq<Byte>, cs: nat, k: nat, alpha: Byte,
                    blend: (Word, Byte) -> Word): (r: seq<Word>)
    requires cs + k <= |coverage| && start + k <= |pixels|
    ensures |r| == |pixels|
  {
    if k == 0 then pixels
    else
      var prev := CoverRun(pixels, start, coverage, cs, k - 1, alpha, blend);
      var a := CoverAlpha(coverage[cs + k - 1], alpha);
      if a > 0 then
        var p := start + Advance(coverage, cs, k - 1, alpha);
        prev[p := blend(prev[p], a)]
      else prev
  }

  /** Where a span starts in the image buffer and in the coverage mask. */
  function SpanStart(sp: Span, width: nat): int
  {
    sp.y * width + sp.x
  }

  function CoverStart(sp: Span, coverX: int, coverY: int, coverWidth: int): int
  {
    (sp.y - coverY) * coverWidth + (sp.x - coverX)
  }

  /** The pixels and the coverage values a span reaches exist. */
  predicate SpanFits(sp: Span, width: nat, size: nat, coverSize: nat, coverX: int, coverY: int, coverWidth: int)
  {
    sp.width <= 0 ||
    (0 <= SpanStart(sp, width) && SpanStart(sp, width) + sp.width <= size &&
     0 <= CoverStart(sp, coverX, coverY, coverWidth) && CoverStart(sp, coverX, coverY, coverWidth) + sp.width <= coverSize)
  }

  predicate SpansFit(spans: seq<Span>, width: nat, size: nat, coverSize: nat, coverX: int, coverY: int, coverWidth: int)
  {
    forall k :: 0 <= k < |spans| ==> SpanFits(spans[k], width, size, coverSize, coverX, coverY, coverWidth)
  }

  /** The pixels after one span's loop; a span that is not wider than 0 writes nothing. */
  function SpanRun(pixels: seq<Word>, sp: Span, width: nat, coverage: seq<Byte>,
                   coverX: int, coverY: int, coverWidth: int, alpha: Byte,
                   blend: (Word, Byte) -> Word): (r: seq<Word>)
    requires SpanFits(sp, width, |pixels|, |coverage|, coverX, coverY, coverWidth)
    ensures |r| == |pixels|
  {
    if sp.width <= 0 then pixels
    else
      CoverRun(pixels, SpanStart(sp, width), coverage, CoverStart(sp, coverX, coverY, coverWidth), sp.width, alpha, blend)
  }

  /** The pixels after the first k iterations of the loop over the spans. */
  function CoverSpans(pixels: seq<Word>, spans: seq<Span>, k: nat, width: nat, coverage: seq<Byte>,
                      coverX: int, coverY: int, coverWidth: int, alpha: Byte,
                      blend: (Word, Byte) -> Word): (r: seq<Word>)
    requires k <= |spans| && SpansFit(spans, width, |pixels|, |coverage|, coverX, coverY, coverWidth)
    ensures |r| == |pixels|
  {
    if k == 0 then pixels
    else
      var prev := CoverSpans(pixels, spans, k - 1, width, coverage, coverX, coverY, coverWidth, alpha, blend);
      assert SpanFits(spans[k - 1], width, |pixels|, |coverage|, coverX, coverY, coverWidth);
      SpanRun(prev, spans[k - 1], width, coverage, coverX, coverY, coverWidth, alpha, blend)
  }

  /** A span writes only within its first Advance pixels; all others keep their value. */
  lemma {:induction false} CoverRunFrame(pixels: seq<Word>, start: nat, coverage: seq<Byte>, cs: nat, k: nat,
                                         alpha: Byte, blend: (Word, Byte) -> Word, i: int)
    requires cs + k <= |coverage| && start + k <= |pixels| && 0 <= i < |pixels|
    requires !(start <= i < start + Advance(coverage, cs, k, alpha))
    ensures CoverRun(pixels, start, coverage, cs, k, alpha, blend)[i] == pixels[i]
  {
    if k > 0 {
      CoverRunFrame(pixels, start, coverage, cs, k - 1, alpha, blend, i);
    }
  }

  /** When every coverage value leaves some alpha, the write position keeps pace with the
      coverage position. */
  lemma {:induction false} FullAdvance(coverage: seq<Byte>, cs: nat, k: nat, alpha: Byte)
    requires cs + k <= |coverage|
    requires forall m :: cs <= m < cs + k ==> CoverAlpha(coverage[m], alpha) > 0
    ensures Advance(coverage, cs, k, alpha) == k
  {
    if k > 0 {
      FullAdvance(coverage, cs, k - 1, alpha);
    }
  }

  /** When every coverage value leaves some alpha, pixel start + j is blended once, with
      coverage value cs + j. */
  lemma {:induction false} CoverRunFull(pixels: seq<Word>, start: nat, coverage: seq<Byte>, cs: nat, k: nat,
                                        alpha: Byte, blend: (Word, Byte) -> Word, j: nat)
    requires cs + k <= |coverage| && start + k <= |pixels| && j < k
    requires forall m :: cs <= m < cs + k ==> CoverAlpha(coverage[m], alpha) > 0
    ensures CoverRun(pixels, start, coverage, cs, k, alpha, blend)[start + j]
      == blend(pixels[start + j], CoverAlpha(coverage[cs + j], alpha))
  {
    FullAdvance(coverage, cs, k - 1, alpha);
    if j < k - 1 {
      CoverRunFull(pixels, start, coverage, cs, k - 1, alpha, blend, j);
    } else {
      CoverRunFrame(pixels, start, coverage, cs, k - 1, alpha, blend, start + j);
    }
  }

  /** A pixel whose coverage leaves no alpha holds the write position back: over coverage
      0, 255 the second coverage value is blended into the first pixel and the second
      pixel is left as it was. */
  lemma CoverRunLags(pixels: seq<Word>, start: nat, alpha: Byte, blend: (Word, Byte) -> Word)
    requires start + 2 <= |pixels| && alpha > 0
    ensures CoverRun(pixels, start, [0, 255], 0, 2, alpha, blend) == pixels[start := blend(pixels[start], alpha)]
  {
    var cover: seq<Byte> := [0, 255];
    assert CoverAlpha(0, alpha) == 0 by { CoverAlphaVanishes(0, alpha); }
    assert CoverRun(pixels, start, cover, 0, 1, alpha, blend) == pixels;
    assert Advance(cover, 0, 1, alpha) == 0;
  }

  /** One span's loop over `count` coverage values from `cs` on, writing from `start` on:
      the coverage position moves on every pixel, the write position only after a write. */
  method FillSpan(a: array<Word>, n: nat, start: nat, coverage: seq<Byte>, cs: nat, count: nat, alpha: Byte,
                  blend: (Word, Byte) -> Word)
    requires n <= a.Length && start + count <= n && cs + count <= |coverage|
    modifies a
    ensures a[..n] == CoverRun(old(a[..n]), start, coverage, cs, count, alpha, blend)
    ensures a[n..] == old(a[n..])
  {
    ghost var a0 := a[..n];
    var destPtr := start;
    var w := 0;
    while w < count
      invariant 0 <= w <= count
      invariant destPtr == start + Advance(coverage, cs, w, alpha)
      invariant a[..n] == CoverRun(a0, start, coverage, cs, w, alpha, blend)
      invariant a[n..] == old(a[n..])
    {
      var aa := CoverAlpha(coverage[cs + w], alpha);
      CoverRunStep(a0, start, coverage, cs, w, alpha, blend, aa);
      if aa > 0 {
        BlendAt(a, n, destPtr, blend, aa);
        destPtr := destPtr + 1;
      }
      w := w + 1;
    }
  }

  /** One more coverage value extends a span's loop by one iteration. */
  lemma CoverRunStep(pixels: seq<Word>, start: nat, coverage: seq<Byte>, cs: nat, w: nat, alpha: Byte,
                     blend: (Word, Byte) -> Word, aa: Byte)
    requires cs + w < |coverage| && start + w < |pixels| && aa == CoverAlpha(coverage[cs + w], alpha)
    ensures Advance(coverage, cs, w + 1, alpha) == Advance(coverage, cs, w, alpha) + if aa > 0 then 1 else 0
    ensures var prev, p := CoverRun(pixels, start, coverage, cs, w, alpha, blend), start + Advance(coverage, cs, w, alpha);
      CoverRun(pixels, start, coverage, cs, w + 1, alpha, blend) == if aa > 0 then prev[p := blend(prev[p], aa)] else prev
  {
  }

  /** One write of the span loop: pixel p blended at alpha aa. */
  method BlendAt(a: array<Word>, n: nat, p: nat, blend: (Word, Byte) -> Word, aa: Byte)
    requires p < n <= a.Length
    modifies a
    ensures a[..n] == old(a[..n])[p := blend(old(a[..n])[p], aa)]
    ensures a[n..] == old(a[n..])
  {
    a[p] := blend(a[p], aa);
  }

  /** One span of the loop over the spans. */
  method FillOneSpan(a: array<Word>, n: nat, width: nat, sp: Span, coverage: seq<Byte>,
                     coverX: int, coverY: int, coverWidth: int, alpha: Byte, blend: (Word, Byte) -> Word)
    requires n <= a.Length && SpanFits(sp, width, n, |coverage|, coverX, coverY, coverWidth)
    modifies a
    ensures a[..n] == SpanRun(old(a[..n]), sp, width, coverage, coverX, coverY, coverWidth, alpha, blend)
    ensures a[n..] == old(a[n..])
  {
    if sp.width > 0 {
      FillSpan(a, n, SpanStart(sp, width), coverage, CoverStart(sp, coverX, coverY, coverWidth), sp.width, alpha, blend);
    }
  }

  /** The loop over the spans: each span that is not empty runs its own loop. */
  method FillSpans(a: array<Word>, n: nat, width: nat, spans: seq<Span>, coverage: seq<Byte>,
                   coverX: int, coverY: int, coverWidth: int, alpha: Byte, blend: (Word, Byte) -> Word)
    requires n <= a.Length && SpansFit(spans, width, n, |coverage|, coverX, coverY, coverWidth)
    modifies a
    ensures a[..n] == CoverSpans(old(a[..n]), spans, |spans|, width, coverage, coverX, coverY, coverWidth, alpha, blend)
    ensures a[n..] == old(a[n..])
  {
    ghost var a0 := a[..n];
    for k := 0 to |spans|
      invariant a[..n] == CoverSpans(a0, spans, k, width, coverage, coverX, coverY, coverWidth, alpha, blend)
      invariant a[n..] == old(a[n..])
    {
      assert SpanFits(spans[k], width, n, |coverage|, coverX, coverY, coverWidth);
      FillOneSpan(a, n, width, spans[k], coverage, coverX, coverY, coverWidth, alpha, blend);
    }
  }
}

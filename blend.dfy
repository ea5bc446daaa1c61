/** The compositing formulas of the software renderer: the "normal" blend used by
    `FillRect` and by the coverage fill, the colours the line drawers write, and the
    additive pixel that goes through the saturation table. */
module Blend {
  import opened Bits
  import opened Pixel

  /** `aNewDestAlpha`: the alpha of a pixel after a colour of alpha `srcAlpha` is
      composited over it. */
  function NewDestAlpha(destAlpha: Byte, srcAlpha: Byte): (r: Byte)
    ensures destAlpha <= r && srcAlpha <= r
    ensures r == 0 <==> destAlpha == 0 && srcAlpha == 0
    ensures r == 255 <==> destAlpha == 255 || srcAlpha == 255
  {
    NewDestAlphaRange(destAlpha, srcAlpha);
    destAlpha + ((255 - destAlpha) * srcAlpha) / 255
  }

  /** The increment `(255 - d) * s / 255` that `NewDestAlpha` adds to the destination alpha. */
  lemma NewDestAlphaRange(d: Byte, s: Byte)
    ensures 0 <= ((255 - d) * s) / 255 <= 255 - d
    ensures s > d ==> s - d <= ((255 - d) * s) / 255
    ensures ((255 - d) * s) / 255 == 255 - d <==> d == 255 || s == 255
  {
    IncrementAtMost(d, s);
    IncrementFull(d, s);
    if s > d {
      IncrementAtLeast(d, s);
    }
  }

  lemma IncrementAtMost(d: Byte, s: Byte)
    ensures 0 <= ((255 - d) * s) / 255 <= 255 - d
  {
    MulNonneg(255 - d, s);
    MulNonneg(255 - d, 255 - s);
    DivAtMost((255 - d) * s, 255, 255 - d);
  }

  lemma IncrementFull(d: Byte, s: Byte)
    ensures ((255 - d) * s) / 255 == 255 - d <==> d == 255 || s == 255
  {
    if s == 255 {
      IncrementAtMost(d, s);
      DivAtLeast((255 - d) * s, 255, 255 - d);
    } else if d < 255 {
      MulNonneg(255 - d, s);
      MulNonneg(255 - d, 254 - s);
      DivAtMost((255 - d) * s, 255, 254 - d);
    }
  }

  lemma IncrementAtLeast(d: Byte, s: Byte)
    requires s > d
    ensures s - d <= ((255 - d) * s) / 255
  {
    assert (255 - d) * s - 255 * (s - d) == d * (255 - s);
    MulNonneg(d, 255 - s);
    DivAtLeast((255 - d) * s, 255, s - d);
  }

  /** `255 * alpha / aNewDestAlpha`: the weight of the source colour in the blend. */
  function SourceWeight(srcAlpha: Byte, newAlpha: Byte): (r: Byte)
    requires 0 < newAlpha && srcAlpha <= newAlpha
    ensures srcAlpha <= r
    ensures r == 255 <==> srcAlpha == newAlpha
  {
    SourceWeightRange(srcAlpha, newAlpha);
    255 * srcAlpha / newAlpha
  }

  lemma SourceWeightRange(s: Byte, n: Byte)
    requires 0 < n && s <= n
    ensures var w := 255 * s / n; s <= w <= 255 && (w == 255 <==> s == n)
  {
    MulNonneg(n, 255 - s);
    MulNonneg(s, 255 - n);
    assert n * s <= 255 * s;
    DivAtLeast(255 * s, n, s);
    DivAtMost(255 * s, n, 255);
    if s < n {
      assert 255 * s < n * 255;
      DivAtMost(255 * s, n, 254);
    } else {
      DivAtLeast(255 * s, n, 255);
    }
  }

  /** `(d * (256 - w as int) + s * w) >> 8`: the channel mix with source weight `w`. */
  function Mix(d: Byte, s: Byte, w: Byte): (r: Byte)
    ensures (if d < s then d else s) <= r <= (if d < s then s else d)
  {
    MixBound(d, s, w);
    (d * (256 - w as int) + s * w) / 256
  }

  lemma MixBound(d: Byte, s: Byte, w: Byte)
    ensures 0 <= d * (256 - w as int) + s * w
    ensures (if d < s then d else s) <= (d * (256 - w as int) + s * w) / 256 <= (if d < s then s else d)
  {
    MulNonneg(d, 256 - w as int);
    MulNonneg(s, w);
    if d < s {
      MixAtMost(d, s, w, s);
      MixAtLeast(d, s, w, d);
    } else {
      MixAtMost(d, s, w, d);
      MixAtLeast(d, s, w, s);
    }
  }

  lemma MixAtLeast(d: nat, s: nat, w: nat, m: nat)
    requires m <= d && m <= s && w <= 256
    ensures m <= (d * (256 - w as int) + s * w) / 256
  {
    var x, y := d * (256 - w as int), s * w;
    assert m * (256 - w as int) <= x by { MulNonneg(d - m, 256 - w as int); }
    assert m * w <= y by { MulNonneg(s - m, w); }
    assert m * (256 - w as int) + m * w == 256 * m;
    DivAtLeast(x + y, 256, m);
  }

  lemma MixAtMost(d: nat, s: nat, w: nat, m: nat)
    requires d <= m && s <= m && w <= 256
    ensures (d * (256 - w as int) + s * w) / 256 <= m
  {
    var x, y := d * (256 - w as int), s * w;
    MulNonneg(d, 256 - w as int);
    MulNonneg(s, w);
    assert x <= m * (256 - w as int) by { MulNonneg(m - d, 256 - w as int); }
    assert y <= m * w by { MulNonneg(m - s, w); }
    assert m * (256 - w as int) + m * w == 256 * m;
    DivAtMost(x + y, 256, m);
  }

  /** The blue channel of `FillRect`: the two products are shifted down before they are
      added, unlike red and green, whose products are added before the shift. */
  function SplitMix(d: Byte, s: Byte, w: Byte): (r: Byte)
    ensures Mix(d, s, w) - 1 <= r <= Mix(d, s, w)
  {
    SplitMixBound(d, s, w);
    d * (256 - w as int) / 256 + s * w / 256
  }

  lemma SplitMixBound(d: Byte, s: Byte, w: Byte)
    ensures 0 <= d * (256 - w as int) && 0 <= s * w
    ensures Mix(d, s, w) - 1 <= d * (256 - w as int) / 256 + s * w / 256 <= Mix(d, s, w)
  {
    var x, y := d * (256 - w as int), s * w;
    MulNonneg(d, 256 - w as int);
    MulNonneg(s, w);
    var qx, qy := x / 256, y / 256;
    assert 256 * qx <= x && 256 * qy <= y;
    DivAtLeast(x + y, 256, qx + qy);
    assert x < 256 * (qx + 1) && y < 256 * (qy + 1);
    DivAtMost(x + y, 256, qx + qy + 1);
  }

  /** One pixel of `FillRect` with a colour that is not opaque: `src` composited over
      `dest`, channel by channel. The source divides by the new alpha, so the two alphas
      must not both be 0. */
  function FillPixel(dest: Word, src: Word): Word
    requires AlphaOf(src) > 0 || AlphaOf(dest) > 0
  {
    var na := NewDestAlpha(AlphaOf(dest), AlphaOf(src));
    var w := SourceWeight(AlphaOf(src), na);
    Pack(na, Mix(RedOf(dest), RedOf(src), w), Mix(GreenOf(dest), GreenOf(src), w),
         SplitMix(BlueOf(dest), BlueOf(src), w))
  }

  /** The mask-and-shift expression `FillRect` writes for one pixel. */
  function FillExpr(dest: Word, src: Word): nat
    requires AlphaOf(src) > 0 || AlphaOf(dest) > 0
  {
    var oldAlpha := Shr(src, 24);
    var destAlpha := Shr(dest, 24);
    NewDestAlphaInputs(dest, src);
    var newDestAlpha := NewDestAlpha(destAlpha, oldAlpha);
    var newAlpha := SourceWeight(oldAlpha, newDestAlpha);
    FillTerm(dest, src, newDestAlpha, newAlpha)
  }

  /** The expression for given new alpha `na` and source weight `w`. */
  function FillTerm(dest: Word, src: Word, na: Byte, w: Byte): nat
  {
    Or(Or(Or(Shl(na, 24), FillBlue(dest, src, w)), FillGreen(dest, src, w)), FillRed(dest, src, w))
  }

  /** `((dest & 0xFF) * (256 - w)) >> 8) + ((src & 0xFF) * w) >> 8) & 0xFF` */
  function FillBlue(dest: Word, src: Word, w: Byte): nat
  {
    And(Shr(Mul(And(dest, 0xFF), 256 - w as int), 8) + Shr(Mul(And(src, 0xFF), w), 8), 0xFF)
  }

  function FillGreen(dest: Word, src: Word, w: Byte): nat
  {
    And(Shr(Mul(And(dest, 0xFF00), 256 - w as int), 8) + Shr(Mul(And(src, 0xFF00), w), 8), 0xFF00)
  }

  function FillRed(dest: Word, src: Word, w: Byte): nat
  {
    And(Shr(Mul(And(dest, 0xFF0000), 256 - w as int), 8) + Shr(Mul(And(src, 0xFF0000), w), 8), 0xFF0000)
  }

  lemma NewDestAlphaInputs(dest: Word, src: Word)
    ensures Shr(dest, 24) == AlphaOf(dest) && Shr(src, 24) == AlphaOf(src)
  {
    ShrValues(dest);
    ShrValues(src);
  }

  /** The expression of `FillRect` computes `FillPixel`. */
  lemma FillExprIsFillPixel(dest: Word, src: Word)
    requires AlphaOf(src) > 0 || AlphaOf(dest) > 0
    ensures FillExpr(dest, src) == FillPixel(dest, src)
  {
    NewDestAlphaInputs(dest, src);
    var na := NewDestAlpha(AlphaOf(dest), AlphaOf(src));
    FillTermPacks(dest, src, na, SourceWeight(AlphaOf(src), na));
  }

  lemma FillTermPacks(dest: Word, src: Word, na: Byte, w: Byte)
    ensures FillTerm(dest, src, na, w)
              == Pack(na, Mix(RedOf(dest), RedOf(src), w), Mix(GreenOf(dest), GreenOf(src), w),
                      SplitMix(BlueOf(dest), BlueOf(src), w))
  {
    FillPixelFields(dest, src, w);
    ShlValues(na);
    OrFieldsABGR(Shl(na, 24), FillBlue(dest, src, w), FillGreen(dest, src, w), FillRed(dest, src, w),
                 na, Mix(RedOf(dest), RedOf(src), w), Mix(GreenOf(dest), GreenOf(src), w),
                 SplitMix(BlueOf(dest), BlueOf(src), w));
  }

  lemma FillPixelFields(dest: Word, src: Word, w: Byte)
    ensures FillBlue(dest, src, w) == SplitMix(BlueOf(dest), BlueOf(src), w)
    ensures FillGreen(dest, src, w) == Mix(GreenOf(dest), GreenOf(src), w) * 0x100
    ensures FillRed(dest, src, w) == Mix(RedOf(dest), RedOf(src), w) * 0x1_0000
  {
    FillBlueChannel(dest, src, w);
    FillGreenChannel(dest, src, w);
    FillRedChannel(dest, src, w);
  }

  lemma FillBlueChannel(dest: Word, src: Word, w: Byte)
    ensures FillBlue(dest, src, w) == SplitMix(BlueOf(dest), BlueOf(src), w)
  {
    BlueMask(dest);
    BlueMask(src);
    SplitBlue(BlueOf(dest), BlueOf(src), w);
  }

  lemma FillGreenChannel(dest: Word, src: Word, w: Byte)
    ensures FillGreen(dest, src, w) == Mix(GreenOf(dest), GreenOf(src), w) * 0x100
  {
    GreenMask(dest);
    GreenMask(src);
    JointGreen(GreenOf(dest), GreenOf(src), w);
  }

  lemma FillRedChannel(dest: Word, src: Word, w: Byte)
    ensures FillRed(dest, src, w) == Mix(RedOf(dest), RedOf(src), w) * 0x1_0000
  {
    RedMask(dest);
    RedMask(src);
    JointRed(RedOf(dest), RedOf(src), w);
  }

  lemma SplitBlue(d: Byte, s: Byte, w: Byte)
    ensures And(Shr(Mul(d, 256 - w as int), 8) + Shr(Mul(s, w), 8), 0xFF) == SplitMix(d, s, w)
  {
    ShrValues(Mul(d, 256 - w as int));
    ShrValues(Mul(s, w));
    BlueField(SplitMix(d, s, w));
  }

  lemma JointGreen(d: Byte, s: Byte, w: Byte)
    ensures And(Shr(Mul(d * 0x100, 256 - w as int), 8) + Shr(Mul(s * 0x100, w), 8), 0xFF00) == Mix(d, s, w) * 0x100
  {
    GreenTerm(d, 256 - w as int);
    GreenTerm(s, w);
    MixNumeratorBound(d, s, w);
    GreenField(d * (256 - w as int) + s * w);
  }

  lemma JointRed(d: Byte, s: Byte, w: Byte)
    ensures And(Shr(Mul(d * 0x1_0000, 256 - w as int), 8) + Shr(Mul(s * 0x1_0000, w), 8), 0xFF0000) == Mix(d, s, w) * 0x1_0000
  {
    RedTerm(d, 256 - w as int);
    RedTerm(s, w);
    var x, y := d * (256 - w as int), s * w;
    var k := x + y;
    assert Shr(Mul(d * 0x1_0000, 256 - w as int), 8) + Shr(Mul(s * 0x1_0000, w), 8) == k * 0x100 by {
      assert x * 0x100 + y * 0x100 == k * 0x100;
    }
    MixNumeratorBound(d, s, w);
    RedField(k);
    assert k / 0x100 == Mix(d, s, w);
  }

  lemma MixNumeratorBound(d: Byte, s: Byte, w: Byte)
    ensures 0 <= d * (256 - w as int) + s * w <= 255 * 256
  {
    MulNonneg(d, 256 - w as int);
    MulNonneg(s, w);
    MulNonneg(255 - d, 256 - w as int);
    MulNonneg(255 - s, w);
  }

  /** A transparent colour leaves a pixel that has some alpha as it was. */
  lemma FillTransparentKeeps(dest: Word, src: Word)
    requires AlphaOf(src) == 0 && AlphaOf(dest) > 0
    ensures FillPixel(dest, src) == dest
  {
    var na := NewDestAlpha(AlphaOf(dest), AlphaOf(src));
    assert na == AlphaOf(dest);
    assert SourceWeight(AlphaOf(src), na) == 0;
    MixWeightZero(RedOf(dest), RedOf(src));
    MixWeightZero(GreenOf(dest), GreenOf(src));
    MixWeightZero(BlueOf(dest), BlueOf(src));
    UnpackPack(dest);
  }

  /** At source weight 0 both mixes keep the destination channel. */
  lemma MixWeightZero(d: Byte, s: Byte)
    ensures Mix(d, s, 0) == d && SplitMix(d, s, 0) == d
  {
    assert d * 256 / 256 == d;
  }

  /** The blended pixel takes the new alpha, and every colour channel stays between the
      destination's and the colour's (blue may fall one below, see `SplitMix`). */
  lemma FillPixelChannels(dest: Word, src: Word)
    requires AlphaOf(src) > 0 || AlphaOf(dest) > 0
    ensures AlphaOf(FillPixel(dest, src)) == NewDestAlpha(AlphaOf(dest), AlphaOf(src))
    ensures var w := SourceWeight(AlphaOf(src), AlphaOf(FillPixel(dest, src)));
            RedOf(FillPixel(dest, src)) == Mix(RedOf(dest), RedOf(src), w)
            && GreenOf(FillPixel(dest, src)) == Mix(GreenOf(dest), GreenOf(src), w)
            && BlueOf(FillPixel(dest, src)) == SplitMix(BlueOf(dest), BlueOf(src), w)
  {
    var na := NewDestAlpha(AlphaOf(dest), AlphaOf(src));
    var w := SourceWeight(AlphaOf(src), na);
    PackChannels(na, Mix(RedOf(dest), RedOf(src), w), Mix(GreenOf(dest), GreenOf(src), w),
                 SplitMix(BlueOf(dest), BlueOf(src), w));
  }

  /** Because blue is floored term by term, it can come out one below the joint mix of
      red and green: a colour blended with the same colour at weight 170 loses a unit of blue. */
  lemma SplitMixBelowMix()
    ensures SplitMix(1, 1, 170) == 0 && Mix(1, 1, 170) == 1
  {
    var d: Byte, s: Byte, w: Byte := 1, 1, 170;
    assert d * (256 - w as int) == 86;
    assert 86 / 256 == 0 by { DivModUnique(86, 256, 0, 86); }
    assert 170 / 256 == 0 by { DivModUnique(170, 256, 0, 170); }
    assert 256 / 256 == 1;
  }

  // ---------------------------------------------------------------------------------
  // The coverage fill and the anti-aliased line: all three channels floored jointly.

  /** `(cover + 1) * alpha >> 8`: the alpha a coverage value leaves of the colour's. */
  function CoverAlpha(coverage: Byte, alpha: Byte): (r: Byte)
    ensures r <= alpha
    ensures coverage == 255 ==> r == alpha
  {
    CoverAlphaRange(coverage, alpha);
    Shr((coverage + 1) * alpha, 8)
  }

  /** A coverage value leaves no alpha exactly when the scaled product stays below 256. */
  lemma CoverAlphaVanishes(coverage: Byte, alpha: Byte)
    ensures CoverAlpha(coverage, alpha) == 0 <==> (coverage + 1) * alpha < 256
  {
    CoverAlphaRange(coverage, alpha);
  }

  lemma CoverAlphaRange(c: Byte, a: Byte)
    ensures Shr((c + 1) * a, 8) == (c + 1) * a / 256
    ensures (c + 1) * a / 256 <= a
    ensures c == 255 ==> (c + 1) * a / 256 == a
    ensures (c + 1) * a / 256 == 0 <==> (c + 1) * a < 256
  {
    ShrValues((c + 1) * a);
    CoverAlphaAtMost(c, a);
    if c == 255 {
      DivModUnique(256 * a, 256, a, 0);
    }
    CoverAlphaZero(c, a);
  }

  lemma CoverAlphaAtMost(c: Byte, a: Byte)
    ensures 0 <= (c + 1) * a / 256 <= a
  {
    MulNonneg(c + 1, a);
    MulAtMost(c + 1, 256, a);
    DivAtMost((c + 1) * a, 256, a);
  }

  lemma CoverAlphaZero(c: Byte, a: Byte)
    ensures (c + 1) * a / 256 == 0 <==> (c + 1) * a < 256
  {
    var x := (c + 1) * a;
    MulNonneg(c + 1, a);
    if x >= 256 {
      DivAtLeast(x, 256, 1);
    } else {
      DivModUnique(x, 256, 0, x);
    }
  }

  /** One pixel of the coverage fill or of the anti-aliased line: colour `src` with
      alpha `a` composited over `dest`. */
  function CoverPixel(dest: Word, src: Word, a: Byte): Word
    requires a > 0
  {
    var na := NewDestAlpha(AlphaOf(dest), a);
    var w := SourceWeight(a, na);
    Pack(na, Mix(RedOf(dest), RedOf(src), w), Mix(GreenOf(dest), GreenOf(src), w),
         Mix(BlueOf(dest), BlueOf(src), w))
  }

  /** The expression the coverage fill writes. */
  function CoverExpr(dest: Word, src: Word, a: Byte): nat
    requires a > 0
  {
    var aDestAlpha := Shr(dest, 24);
    ShrValues(dest);
    var aNewDestAlpha := NewDestAlpha(aDestAlpha, a);
    var w := SourceWeight(a, aNewDestAlpha);
    Or(Or(Or(Shl(aNewDestAlpha, 24), CoverBlue(dest, src, w)), CoverGreen(dest, src, w)), CoverRed(dest, src, w))
  }

  /** `(((dest & 0xFF) * oma + (src & 0xFF) * a) >> 8) & 0xFF` */
  function CoverBlue(dest: Word, src: Word, w: Byte): nat
  {
    And(Shr(Mul(And(dest, 0xFF), 256 - w as int) + Mul(And(src, 0xFF), w), 8), 0xFF)
  }

  function CoverGreen(dest: Word, src: Word, w: Byte): nat
  {
    And(Shr(Mul(And(dest, 0xFF00), 256 - w as int) + Mul(And(src, 0xFF00), w), 8), 0xFF00)
  }

  function CoverRed(dest: Word, src: Word, w: Byte): nat
  {
    And(Shr(Mul(And(dest, 0xFF0000), 256 - w as int) + Mul(And(src, 0xFF0000), w), 8), 0xFF0000)
  }

  /** The expression of the coverage fill computes `CoverPixel`. */
  lemma CoverExprIsCoverPixel(dest: Word, src: Word, a: Byte)
    requires a > 0
    ensures CoverExpr(dest, src, a) == CoverPixel(dest, src, a)
  {
    ShrValues(dest);
    var na := NewDestAlpha(AlphaOf(dest), a);
    var w := SourceWeight(a, na);
    CoverBlueChannel(dest, src, w);
    CoverGreenChannel(dest, src, w);
    CoverRedChannel(dest, src, w);
    ShlValues(na);
    OrFieldsABGR(Shl(na, 24), CoverBlue(dest, src, w), CoverGreen(dest, src, w), CoverRed(dest, src, w),
                 na, Mix(RedOf(dest), RedOf(src), w), Mix(GreenOf(dest), GreenOf(src), w),
                 Mix(BlueOf(dest), BlueOf(src), w));
  }

  lemma CoverBlueChannel(dest: Word, src: Word, w: Byte)
    ensures CoverBlue(dest, src, w) == Mix(BlueOf(dest), BlueOf(src), w)
  {
    BlueMask(dest);
    BlueMask(src);
    CoverJointBlue(BlueOf(dest), BlueOf(src), w);
  }

  lemma CoverGreenChannel(dest: Word, src: Word, w: Byte)
    ensures CoverGreen(dest, src, w) == Mix(GreenOf(dest), GreenOf(src), w) * 0x100
  {
    GreenMask(dest);
    GreenMask(src);
    CoverJointGreen(GreenOf(dest), GreenOf(src), w);
  }

  lemma CoverRedChannel(dest: Word, src: Word, w: Byte)
    ensures CoverRed(dest, src, w) == Mix(RedOf(dest), RedOf(src), w) * 0x1_0000
  {
    RedMask(dest);
    RedMask(src);
    CoverJointRed(RedOf(dest), RedOf(src), w);
  }

  lemma CoverJointBlue(d: Byte, s: Byte, w: Byte)
    ensures And(Shr(Mul(d, 256 - w as int) + Mul(s, w), 8), 0xFF) == Mix(d, s, w)
  {
    MixNumeratorBound(d, s, w);
    ShrValues(d * (256 - w as int) + s * w);
    BlueField(Mix(d, s, w));
  }

  lemma CoverJointGreen(d: Byte, s: Byte, w: Byte)
    ensures And(Shr(Mul(d * 0x100, 256 - w as int) + Mul(s * 0x100, w), 8), 0xFF00) == Mix(d, s, w) * 0x100
  {
    var x, y := d * (256 - w as int), s * w;
    MixNumeratorBound(d, s, w);
    Scaled(d, 0x100, 256 - w as int);
    Scaled(s, 0x100, w);
    var k := x + y;
    assert Mul(d * 0x100, 256 - w as int) + Mul(s * 0x100, w) == k * 0x100;
    ShiftGreenDown(k);
    assert Shr(k * 0x100, 8) == k;
    GreenField(k);
    assert And(k, 0xFF00) == k / 0x100 * 0x100;
    assert k / 0x100 == Mix(d, s, w);
  }

  lemma CoverJointRed(d: Byte, s: Byte, w: Byte)
    ensures And(Shr(Mul(d * 0x1_0000, 256 - w as int) + Mul(s * 0x1_0000, w), 8), 0xFF0000) == Mix(d, s, w) * 0x1_0000
  {
    var x, y := d * (256 - w as int), s * w;
    MixNumeratorBound(d, s, w);
    Scaled(d, 0x1_0000, 256 - w as int);
    Scaled(s, 0x1_0000, w);
    var k := x + y;
    assert Mul(d * 0x1_0000, 256 - w as int) + Mul(s * 0x1_0000, w) == k * 0x1_0000;
    ShiftRedDown(k);
    assert Shr(k * 0x1_0000, 8) == k * 0x100;
    RedField(k);
    assert And(k * 0x100, 0xFF0000) == k / 0x100 * 0x1_0000;
    assert k / 0x100 == Mix(d, s, w);
  }

  lemma ShiftGreenDown(k: nat)
    ensures Shr(k * 0x100, 8) == k
  {
    ShrValues(k * 0x100);
    DivModUnique(k * 0x100, 0x100, k, 0);
  }

  lemma ShiftRedDown(k: nat)
    ensures Shr(k * 0x1_0000, 8) == k * 0x100
  {
    ShrValues(k * 0x1_0000);
    DivModUnique(k * 0x1_0000, 0x100, k * 0x100, 0);
  }
}

/** The colours the aliased line drawers write: the opaque colour, the translucent blend
    and the additive pixel that goes through the saturation table. Every line pixel is
    written with alpha 255. */
module LinePixel {
  import opened Bits
  import opened Pixel

  /** One channel of the opaque line colour, `(c * mask + mask >> 1) >> 8` in its field:
      the channel scaled by 255/256 and rounded, which lowers every value from 128 up by one. */
  function Scale(c: Byte): (r: Byte)
    ensures r == if c < 128 then c else c - 1
  {
    ScaleValue(c);
    (255 * c + 127) / 256
  }

  lemma ScaleValue(c: Byte)
    ensures (255 * c + 127) / 256 == if c < 128 then c else c - 1
  {
    if c < 128 {
      DivModUnique(255 * c + 127, 256, c, 127 - c);
    } else {
      DivModUnique(255 * c + 127, 256, c - 1, 383 - c);
    }
  }

  /** `(k * 0x10000 + 0x7F8000) >> 8 & 0xFF0000`: the rounding shift in the red field. */
  lemma RoundRedField(k: nat)
    requires k + 127 < 0x1_0000
    ensures And(Shr(k * 0x1_0000 + 0x7F8000, 8), 0xFF0000) == (k + 127) / 0x100 * 0x1_0000
  {
    var x, y := k * 0x1_0000 + 0x7F8000, k * 0x100 + 0x7F80;
    ShrValues(x);
    DivModUnique(x, 0x100, y, 0);
    RedMask(y);
    var q, r := (k + 127) / 0x100, (k + 127) % 0x100;
    assert k + 127 == 0x100 * q + r;
    assert y == 0x1_0000 * q + (0x100 * r + 128);
    DivModUnique(y, 0x1_0000, q, 0x100 * r + 128);
    DivAtMost(k + 127, 0x100, 255);
    DivModUnique(q, 0x100, 0, q);
  }

  /** `(k * 0x100 + 0x7F80) >> 8 & 0xFF00`: the rounding shift in the green field. */
  lemma RoundGreenField(k: nat)
    requires k + 127 < 0x1_0000
    ensures And(Shr(k * 0x100 + 0x7F80, 8), 0xFF00) == (k + 127) / 0x100 * 0x100
  {
    var x := k * 0x100 + 0x7F80;
    ShrValues(x);
    DivModUnique(x, 0x100, k + 127, 128);
    GreenField(k + 127);
  }

  /** `(k + 0x7F) >> 8 & 0xFF`: the rounding shift in the blue field. */
  lemma RoundBlueField(k: nat)
    requires k + 127 < 0x1_0000
    ensures And(Shr(k + 0x7F, 8), 0xFF) == (k + 127) / 0x100
  {
    ShrValues(k + 127);
    DivAtMost(k + 127, 0x100, 255);
    BlueField((k + 127) / 0x100);
  }

  /** The red, green and blue terms of the opaque line colour. */
  function ScaleRed(c: Byte): nat
  {
    And(Shr(c * 0xFF0000 + 0x7F8000, 8), 0xFF0000)
  }

  function ScaleGreen(c: Byte): nat
  {
    And(Shr(c * 0xFF00 + 0x7F80, 8), 0xFF00)
  }

  function ScaleBlue(c: Byte): nat
  {
    And(Shr(c * 0xFF + 0x7F, 8), 0xFF)
  }

  lemma ScaleFields(c: Byte)
    ensures ScaleRed(c) == Scale(c) * 0x1_0000
    ensures ScaleGreen(c) == Scale(c) * 0x100
    ensures ScaleBlue(c) == Scale(c)
  {
    ScaleRedIs(c);
    ScaleGreenIs(c);
    ScaleBlueIs(c);
  }

  lemma ScaleRedIs(c: Byte)
    ensures ScaleRed(c) == Scale(c) * 0x1_0000
  {
    var k := 255 * c;
    var x := c * 0xFF0000 + 0x7F8000;
    assert x == k * 0x1_0000 + 0x7F8000;
    RoundRedField(k);
    assert And(Shr(x, 8), 0xFF0000) == (k + 127) / 0x100 * 0x1_0000;
    ScaleValue(c);
  }

  lemma ScaleGreenIs(c: Byte)
    ensures ScaleGreen(c) == Scale(c) * 0x100
  {
    var k := 255 * c;
    assert c * 0xFF00 + 0x7F80 == k * 0x100 + 0x7F80;
    RoundGreenField(k);
    assert (k + 127) / 0x100 == Scale(c);
  }

  lemma ScaleBlueIs(c: Byte)
    ensures ScaleBlue(c) == Scale(c)
  {
    var k := 255 * c;
    assert c * 0xFF + 0x7F == k + 0x7F;
    RoundBlueField(k);
    assert (k + 127) / 0x100 == Scale(c);
  }

  /** `0xFF000000 | red | green | blue` with each channel scaled and rounded in its field. */
  function ScaleTerm(r: Byte, g: Byte, b: Byte): nat
  {
    Or(Or(Or(0xFF00_0000, ScaleRed(r)), ScaleGreen(g)), ScaleBlue(b))
  }

  lemma ScaleTermIs(r: Byte, g: Byte, b: Byte)
    ensures ScaleTerm(r, g, b) == Pack(255, Scale(r), Scale(g), Scale(b))
  {
    ScaleFields(r);
    ScaleFields(g);
    ScaleFields(b);
    OrFieldsARGB(0xFF00_0000, ScaleRed(r), ScaleGreen(g), ScaleBlue(b), 255, Scale(r), Scale(g), Scale(b));
  }

  /** The colour the opaque line drawers write. */
  function OpaqueLineColor(c: Color): Word
  {
    Pack(255, Scale(c.red), Scale(c.green), Scale(c.blue))
  }

  /** The expression of the opaque line colour. */
  function OpaqueLineExpr(c: Color): nat
  {
    ScaleTerm(c.red, c.green, c.blue)
  }

  lemma OpaqueLineExprIs(c: Color)
    ensures OpaqueLineExpr(c) == OpaqueLineColor(c)
  {
    ScaleTermIs(c.red, c.green, c.blue);
  }

  /** An opaque line colour differs from the colour by at most one per channel and is
      always opaque. */
  lemma OpaqueLineColorClose(c: Color)
    ensures AlphaOf(OpaqueLineColor(c)) == 255
    ensures c.red - 1 <= RedOf(OpaqueLineColor(c)) <= c.red
    ensures c.green - 1 <= GreenOf(OpaqueLineColor(c)) <= c.green
    ensures c.blue - 1 <= BlueOf(OpaqueLineColor(c)) <= c.blue
  {
    PackChannels(255, Scale(c.red), Scale(c.green), Scale(c.blue));
  }

  // ---------------------------------------------------------------------------------
  // Translucent lines.

  /** `(c * a + 0x80) >> 8`: a channel premultiplied by the colour's alpha and rounded. */
  function Premul(c: Byte, a: Byte): (r: Byte)
    ensures r <= c && r <= a
  {
    PremulRange(c, a);
    (c * a + 0x80) / 256
  }

  lemma PremulRange(c: Byte, a: Byte)
    ensures 0 <= (c * a + 0x80) / 256 <= c
    ensures (c * a + 0x80) / 256 <= a
  {
    MulNonneg(c, a);
    MulAtMost(a, 255, c);
    DivAtMost(c * a + 0x80, 256, c);
    MulAtMost(c, 255, a);
    DivAtMost(c * a + 0x80, 256, a);
  }

  /** `((d * (256 - a)) + 0x7F) >> 8`: what a line of alpha `a` leaves of a destination
      channel. */
  function Shade(d: Byte, a: Byte): (r: Byte)
    ensures r <= d
    ensures a == 0 ==> r == d
  {
    ShadeRange(d, a);
    (d * (256 - a as int) + 127) / 256
  }

  lemma ShadeRange(d: Byte, a: Byte)
    ensures 0 <= d * (256 - a as int) <= 255 * (256 - a as int)
    ensures 0 <= (d * (256 - a as int) + 127) / 256 <= d
    ensures a == 0 ==> (d * (256 - a as int) + 127) / 256 == d
  {
    MulNonneg(d, 256 - a as int);
    MulAtMost(d, 255, 256 - a as int);
    MulAtMost(256 - a as int, 256, d);
    DivAtMost(d * (256 - a as int) + 127, 256, d);
    if a == 0 {
      DivModUnique(d * 256 + 127, 256, d, 127);
    }
  }

  /** A translucent line never carries a channel past 255: the colour's part and the
      destination's part add up to at most 255. */
  lemma ChannelSum(c: Byte, a: Byte, d: Byte)
    ensures Scale(Premul(c, a)) + Shade(d, a) <= 255
  {
    var x, y := 255 * a + 128, 255 * (256 - a as int) + 127;
    assert x + y == 65535;
    MulNonneg(c, a);
    MulAtMost(c, 255, a);
    DivMonotone(c * a + 0x80, x, 256);
    ShadeRange(d, a);
    DivMonotone(d * (256 - a as int) + 127, y, 256);
    DivAtLeast(x + y, 256, x / 256 + y / 256) by {
      assert 256 * (x / 256) <= x && 256 * (y / 256) <= y;
    }
    DivModUnique(x + y, 256, 255, 255);
  }

  /** The premultiplied colour term of a translucent line, `0xFF000000 | ...`. */
  function LineSource(c: Color): Word
  {
    Pack(255, Scale(Premul(c.red, c.alpha)), Scale(Premul(c.green, c.alpha)), Scale(Premul(c.blue, c.alpha)))
  }

  /** The pixel a translucent line writes over `dest`: the premultiplied colour plus what
      the line leaves of each destination channel, with alpha 255. */
  function LineBlend(dest: Word, c: Color): Word
  {
    var a := c.alpha;
    ChannelSum(c.red, a, RedOf(dest));
    ChannelSum(c.green, a, GreenOf(dest));
    ChannelSum(c.blue, a, BlueOf(dest));
    Pack(255, Scale(Premul(c.red, a)) + Shade(RedOf(dest), a), Scale(Premul(c.green, a)) + Shade(GreenOf(dest), a),
         Scale(Premul(c.blue, a)) + Shade(BlueOf(dest), a))
  }

  /** The expression of the premultiplied line colour. */
  function LineSourceExpr(c: Color): nat
  {
    ScaleTerm(PremulExpr(c.red, c.alpha), PremulExpr(c.green, c.alpha), PremulExpr(c.blue, c.alpha))
  }

  /** `(c * a + 0x80) >> 8` */
  function PremulExpr(c: Byte, a: Byte): (r: Byte)
    ensures r == Premul(c, a)
  {
    PremulShift(c, a);
    Shr(c * a + 0x80, 8)
  }

  lemma PremulShift(c: Byte, a: Byte)
    ensures Shr(c * a + 0x80, 8) == Premul(c, a)
  {
    MulNonneg(c, a);
    ShrValues(c * a + 0x80);
  }

  lemma LineSourceExprIs(c: Color)
    ensures LineSourceExpr(c) == LineSource(c)
  {
    var a := c.alpha;
    ScaleTermIs(Premul(c.red, a), Premul(c.green, a), Premul(c.blue, a));
  }

  /** The destination terms, `((((dest & mask) * oma) + mask >> 1) >> 8) & mask`. */
  function ShadeRed(dest: Word, oma: nat): nat
  {
    And(Shr(Mul(And(dest, 0xFF0000), oma) + 0x7F8000, 8), 0xFF0000)
  }

  function ShadeGreen(dest: Word, oma: nat): nat
  {
    And(Shr(Mul(And(dest, 0xFF00), oma) + 0x7F80, 8), 0xFF00)
  }

  function ShadeBlue(dest: Word, oma: nat): nat
  {
    And(Shr(Mul(And(dest, 0xFF), oma) + 0x7F, 8), 0xFF)
  }

  lemma ShadeRedIs(dest: Word, a: Byte)
    ensures ShadeRed(dest, 256 - a as int) == Shade(RedOf(dest), a) * 0x1_0000
  {
    RedMask(dest);
    var d := RedOf(dest);
    ShadeRange(d, a);
    Scaled(d, 0x1_0000, 256 - a as int);
    RoundRedField(d * (256 - a as int));
  }

  lemma ShadeGreenIs(dest: Word, a: Byte)
    ensures ShadeGreen(dest, 256 - a as int) == Shade(GreenOf(dest), a) * 0x100
  {
    GreenMask(dest);
    var d := GreenOf(dest);
    ShadeRange(d, a);
    Scaled(d, 0x100, 256 - a as int);
    RoundGreenField(d * (256 - a as int));
  }

  lemma ShadeBlueIs(dest: Word, a: Byte)
    ensures ShadeBlue(dest, 256 - a as int) == Shade(BlueOf(dest), a)
  {
    BlueMask(dest);
    var d := BlueOf(dest);
    ShadeRange(d, a);
    RoundBlueField(d * (256 - a as int));
  }

  /** `src + red + green + blue` of the translucent line drawers, a 32-bit sum. */
  function LineBlendExpr(dest: Word, src: nat, oma: nat): Word
  {
    (src + ShadeRed(dest, oma) + ShadeGreen(dest, oma) + ShadeBlue(dest, oma)) % WordLimit
  }

  /** The expression of the translucent line drawers computes `LineBlend`: the 32-bit sum
      never carries from one channel into the next. */
  lemma LineBlendExprIs(dest: Word, c: Color)
    ensures LineBlendExpr(dest, LineSourceExpr(c), 256 - c.alpha as int) == LineBlend(dest, c)
  {
    LineSourceExprIs(c);
    LineBlendSum(dest, c, LineSourceExpr(c));
  }

  lemma LineBlendSum(dest: Word, c: Color, src: nat)
    requires src == LineSource(c)
    ensures LineBlendExpr(dest, src, 256 - c.alpha as int) == LineBlend(dest, c)
  {
    var a := c.alpha;
    ShadeRedIs(dest, a);
    ShadeGreenIs(dest, a);
    ShadeBlueIs(dest, a);
    ChannelSum(c.red, a, RedOf(dest));
    ChannelSum(c.green, a, GreenOf(dest));
    ChannelSum(c.blue, a, BlueOf(dest));
    PackAdd(255, Scale(Premul(c.red, a)), Scale(Premul(c.green, a)), Scale(Premul(c.blue, a)),
            Shade(RedOf(dest), a), Shade(GreenOf(dest), a), Shade(BlueOf(dest), a));
    var p := LineBlend(dest, c);
    DivModUnique(p, WordLimit, 0, p);
  }

  /** A line of alpha 0 leaves the colour of every pixel it covers but makes it opaque. */
  lemma LineBlendTransparent(dest: Word, c: Color)
    requires c.alpha == 0
    ensures LineBlend(dest, c) == Pack(255, RedOf(dest), GreenOf(dest), BlueOf(dest))
  {
  }

  /** Adding channel values to a packed pixel adds them channel by channel while no
      channel passes 255. */
  lemma PackAdd(a: Byte, r: Byte, g: Byte, b: Byte, r2: Byte, g2: Byte, b2: Byte)
    requires r + r2 < 256 && g + g2 < 256 && b + b2 < 256
    ensures Pack(a, r, g, b) + r2 * 0x1_0000 + g2 * 0x100 + b2 == Pack(a, r + r2, g + g2, b + b2)
  {
  }

  lemma DivMonotone(x: int, y: int, d: int)
    requires 0 <= x <= y && d > 0
    ensures x / d <= y / d
  {
    assert d * (x / d) <= x;
    DivAtLeast(y, d, x / d);
  }

  // ---------------------------------------------------------------------------------
  // Additive lines.

  /** `c * a / 255`: the amount an additive line adds to a channel. */
  function AddAmount(c: Byte, a: Byte): (r: Byte)
    ensures r <= c && r <= a
    ensures a == 255 ==> r == c
  {
    AddAmountRange(c, a);
    c * a / 255
  }

  lemma AddAmountRange(c: Byte, a: Byte)
    ensures 0 <= c * a / 255 <= c && c * a / 255 <= a
    ensures a == 255 ==> c * a / 255 == c
  {
    MulNonneg(c, a);
    MulAtMost(a, 255, c);
    DivAtMost(c * a, 255, c);
    MulAtMost(c, 255, a);
    DivAtMost(c * a, 255, a);
    if a == 255 {
      DivModUnique(c * 255, 255, c, 0);
    }
  }

  /** The saturation table the application provides: entry i is `min(i, 255)`, for every
      sum of two channels. */
  predicate SaturatingTable(table: seq<Byte>)
  {
    |table| == 512 && forall i :: 0 <= i < 512 ==> table[i] == if i < 255 then i else 255
  }

  /** `mAdd8BitMaxTable`: one entry for every sum of two channels. */
  type MaxTable = t: seq<Byte> | |t| == 512 witness seq(512, i => 0)

  /** The pixel an additive line writes over `dest`: each channel looked up in the table
      at the destination channel plus the amount, alpha 255. */
  function AdditivePixel(table: MaxTable, dest: Word, c: Color): Word
  {
    Pack(255, table[RedOf(dest) + AddAmount(c.red, c.alpha)], table[GreenOf(dest) + AddAmount(c.green, c.alpha)],
         table[BlueOf(dest) + AddAmount(c.blue, c.alpha)])
  }

  /** `0xFF000000 | (r << 16) | (g << 8) | (b << 0)` with
      `r = table[((dest & 0xFF0000) >> 16) + rc]` and so on. */
  function AdditiveExpr(table: MaxTable, dest: Word, c: Color): nat
  {
    var rc := c.red * c.alpha / 255;
    var gc := c.green * c.alpha / 255;
    var bc := c.blue * c.alpha / 255;
    AdditiveIndices(dest);
    AddAmountRange(c.red, c.alpha);
    AddAmountRange(c.green, c.alpha);
    AddAmountRange(c.blue, c.alpha);
    var r := table[Shr(And(dest, 0xFF0000), 16) + rc];
    var g := table[Shr(And(dest, 0xFF00), 8) + gc];
    var b := table[Shr(And(dest, 0xFF), 0) + bc];
    OpaqueTerm(r, g, b)
  }

  /** `0xFF000000 | (r << 16) | (g << 8) | (b << 0)` */
  function OpaqueTerm(r: Byte, g: Byte, b: Byte): nat
  {
    Or(Or(Or(0xFF00_0000, Shl(r, 16)), Shl(g, 8)), Shl(b, 0))
  }

  lemma OpaqueTermIs(r: Byte, g: Byte, b: Byte)
    ensures OpaqueTerm(r, g, b) == Pack(255, r, g, b)
  {
    ShlValues(r);
    ShlValues(g);
    ShlValues(b);
    OrFieldsARGB(0xFF00_0000, Shl(r, 16), Shl(g, 8), Shl(b, 0), 255, r, g, b);
  }

  lemma AdditiveIndices(dest: Word)
    ensures Shr(And(dest, 0xFF0000), 16) == RedOf(dest)
    ensures Shr(And(dest, 0xFF00), 8) == GreenOf(dest)
    ensures Shr(And(dest, 0xFF), 0) == BlueOf(dest)
  {
    ChannelFields(dest);
    ShrValues(RedOf(dest) * 0x1_0000);
    DivModUnique(RedOf(dest) * 0x1_0000, 0x1_0000, RedOf(dest), 0);
    ShrValues(GreenOf(dest) * 0x100);
    DivModUnique(GreenOf(dest) * 0x100, 0x100, GreenOf(dest), 0);
    ShrValues(BlueOf(dest));
  }

  lemma AdditiveExprIs(table: MaxTable, dest: Word, c: Color)
    ensures AdditiveExpr(table, dest, c) == AdditivePixel(table, dest, c)
  {
    AdditiveIndices(dest);
    var r := table[RedOf(dest) + AddAmount(c.red, c.alpha)];
    var g := table[GreenOf(dest) + AddAmount(c.green, c.alpha)];
    var b := table[BlueOf(dest) + AddAmount(c.blue, c.alpha)];
    OpaqueTermIs(r, g, b);
  }

  /** With the saturation table an additive line adds the amount to every channel and
      stops at 255; the pixel becomes opaque and no channel darkens. */
  lemma AdditiveSaturates(table: MaxTable, dest: Word, c: Color)
    requires SaturatingTable(table)
    ensures AlphaOf(AdditivePixel(table, dest, c)) == 255
    ensures var s := RedOf(dest) + AddAmount(c.red, c.alpha);
            RedOf(AdditivePixel(table, dest, c)) == if s < 255 then s else 255
    ensures var s := GreenOf(dest) + AddAmount(c.green, c.alpha);
            GreenOf(AdditivePixel(table, dest, c)) == if s < 255 then s else 255
    ensures var s := BlueOf(dest) + AddAmount(c.blue, c.alpha);
            BlueOf(AdditivePixel(table, dest, c)) == if s < 255 then s else 255
  {
    var r := table[RedOf(dest) + AddAmount(c.red, c.alpha)];
    var g := table[GreenOf(dest) + AddAmount(c.green, c.alpha)];
    var b := table[BlueOf(dest) + AddAmount(c.blue, c.alpha)];
    PackChannels(255, r, g, b);
  }
}

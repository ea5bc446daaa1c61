/** The display's native pixel layout, the premultiplied copy `GetNativeAlphaData` makes
    for it and the conversion `GetBits` uses to turn that copy back into ARGB pixels. */
module Native {
  import opened Bits
  import opened Pixel

  /** The screen's pixel layout: the number of bits, the position and the mask of each
      colour channel. */
  datatype Display = Display(redBits: nat, greenBits: nat, blueBits: nat,
                             redShift: nat, greenShift: nat, blueShift: nat,
                             redMask: Word, greenMask: Word, blueMask: Word)

  /** Channels of at most 8 bits, as the shift amounts of the conversions assume. */
  predicate ValidDisplay(d: Display)
  {
    d.redBits <= 8 && d.greenBits <= 8 && d.blueBits <= 8
  }

  /** The usual 32-bit layout, which is the ARGB layout of the image itself. */
  const Display888: Display := Display(8, 8, 8, 16, 8, 0, 0xFF0000, 0xFF00, 0xFF)

  // ---------------------------------------------------------------------------------
  // Reference definitions, channel by channel.

  /** `(c * (a + 1)) >> 8`: a channel premultiplied by alpha. */
  function PremulChannel(c: Byte, a: Byte): (r: Byte)
    ensures r <= c && r <= a
    ensures a == 255 ==> r == c
  {
    PremulChannelRange(c, a);
    c * (a + 1) / 256
  }

  lemma PremulChannelRange(c: Byte, a: Byte)
    ensures 0 <= c * (a + 1) / 256 <= c && c * (a + 1) / 256 <= a
    ensures a == 255 ==> c * (a + 1) / 256 == c
  {
    MulNonneg(c, a + 1);
    MulAtMost(a + 1, 256, c);
    DivAtMost(c * (a + 1), 256, c);
    MulAtMost(c, 255, a + 1);
    assert 255 * (a + 1) < 256 * (a + 1);
    DivAtMost(c * (a + 1), 256, a);
    if a == 255 {
      DivModUnique(c * 256, 256, c, 0);
    }
  }

  /** `((c << 8) / (a + 1)) & 0xFF`: a premultiplied channel divided by alpha again,
      kept to 8 bits. */
  function UnpremulChannel(c: Byte, a: Byte): Byte
  {
    c * 256 / (a + 1) % 256
  }

  /** A pixel premultiplied by its alpha; alpha itself stays. */
  function Premultiplied(p: Word): Word
  {
    var a := AlphaOf(p);
    Pack(a, PremulChannel(RedOf(p), a), PremulChannel(GreenOf(p), a), PremulChannel(BlueOf(p), a))
  }

  /** A premultiplied pixel divided by its alpha; alpha itself stays. */
  function Unpremultiplied(p: Word): Word
  {
    var a := AlphaOf(p);
    Pack(a, UnpremulChannel(RedOf(p), a), UnpremulChannel(GreenOf(p), a), UnpremulChannel(BlueOf(p), a))
  }

  /** Dividing a premultiplied channel never wraps past 8 bits and never gives back more
      than the channel had; at full alpha it gives back exactly the channel. */
  lemma ChannelRoundTrip(c: Byte, a: Byte)
    ensures UnpremulChannel(PremulChannel(c, a), a) <= c
    ensures a == 255 ==> UnpremulChannel(PremulChannel(c, a), a) == c
  {
    var q := PremulChannel(c, a);
    MulNonneg(c, a + 1);
    assert 256 * q <= c * (a + 1);
    DivAtMost(q * 256, a + 1, c) by {
      assert q * 256 <= c * (a + 1);
      assert c * (a + 1) < (a + 1) * (c + 1);
    }
    DivModUnique(q * 256 / (a + 1), 256, 0, q * 256 / (a + 1));
    if a == 255 {
      DivModUnique(c * 256, 256, c, 0);
    }
  }

  lemma PremultipliedChannels(p: Word)
    ensures var a := AlphaOf(p);
            AlphaOf(Premultiplied(p)) == a
            && RedOf(Premultiplied(p)) == PremulChannel(RedOf(p), a)
            && GreenOf(Premultiplied(p)) == PremulChannel(GreenOf(p), a)
            && BlueOf(Premultiplied(p)) == PremulChannel(BlueOf(p), a)
  {
    var a := AlphaOf(p);
    PackChannels(a, PremulChannel(RedOf(p), a), PremulChannel(GreenOf(p), a), PremulChannel(BlueOf(p), a));
  }

  /** Converting a pixel to the native copy and back loses precision below full alpha but
      never brightens a channel, and keeps alpha. */
  lemma RoundTripDarkens(p: Word)
    ensures AlphaOf(Unpremultiplied(Premultiplied(p))) == AlphaOf(p)
    ensures RedOf(Unpremultiplied(Premultiplied(p))) <= RedOf(p)
    ensures GreenOf(Unpremultiplied(Premultiplied(p))) <= GreenOf(p)
    ensures BlueOf(Unpremultiplied(Premultiplied(p))) <= BlueOf(p)
  {
    var a := AlphaOf(p);
    var q := Premultiplied(p);
    PremultipliedChannels(p);
    ChannelRoundTrip(RedOf(p), a);
    ChannelRoundTrip(GreenOf(p), a);
    ChannelRoundTrip(BlueOf(p), a);
    PackChannels(a, UnpremulChannel(RedOf(q), a), UnpremulChannel(GreenOf(q), a), UnpremulChannel(BlueOf(q), a));
  }

  /** At full alpha the round trip is exact. */
  lemma RoundTripOpaque(p: Word)
    requires AlphaOf(p) == 255
    ensures Unpremultiplied(Premultiplied(p)) == p
  {
    var q := Premultiplied(p);
    PremultipliedChannels(p);
    ChannelRoundTrip(RedOf(p), 255);
    ChannelRoundTrip(GreenOf(p), 255);
    ChannelRoundTrip(BlueOf(p), 255);
    UnpackPack(p);
  }

  /** At alpha 127 a full channel comes back as 254. */
  lemma RoundTripLoses()
    ensures PremulChannel(255, 127) == 127 && UnpremulChannel(127, 127) == 254
  {
    assert 255 * 128 / 256 == 127 by { DivModUnique(255 * 128, 256, 127, 128); }
    assert 127 * 256 / 128 == 254 by { DivModUnique(127 * 256, 128, 254, 0); }
    assert 254 % 256 == 254 by { DivModUnique(254, 256, 0, 254); }
  }

  // ---------------------------------------------------------------------------------
  // `GetNativeAlphaData`: the expression, for any display.

  /** `(((r >> rRightShift) << rLeftShift) & rMask)` with `r = ((val & 0xFF0000) * (a + 1)) >> 8`. */
  function NativeRed(d: Display, val: Word, a: Byte): Word
    requires ValidDisplay(d)
  {
    And32(Shl(Shr(Shr(Mul(And(val, 0xFF0000), a + 1), 8), 16 + (8 - d.redBits)), d.redShift), d.redMask)
  }

  function NativeGreen(d: Display, val: Word, a: Byte): Word
    requires ValidDisplay(d)
  {
    And32(Shl(Shr(Shr(Mul(And(val, 0xFF00), a + 1), 8), 8 + (8 - d.greenBits)), d.greenShift), d.greenMask)
  }

  function NativeBlue(d: Display, val: Word, a: Byte): Word
    requires ValidDisplay(d)
  {
    And32(Shl(Shr(Shr(Mul(And(val, 0xFF), a + 1), 8), 0 + (8 - d.blueBits)), d.blueShift), d.blueMask)
  }

  /** The native premultiplied pixel `GetNativeAlphaData` stores for `val`. */
  function NativePixel(d: Display, val: Word): Word
    requires ValidDisplay(d)
  {
    ShrValues(val);
    var a := Shr(val, 24);
    Or32(Or32(Or32(NativeRed(d, val, a), NativeGreen(d, val, a)), NativeBlue(d, val, a)), Shl(a, 24))
  }

  /** On any display whose channels lie below the alpha byte the native pixel keeps alpha. */
  lemma NativePixelAlpha(d: Display, val: Word)
    requires ValidDisplay(d)
    requires d.redMask < 0x100_0000 && d.greenMask < 0x100_0000 && d.blueMask < 0x100_0000
    ensures AlphaOf(NativePixel(d, val)) == AlphaOf(val)
  {
    ShrValues(val);
    var a := AlphaOf(val);
    var r, g, b := NativeRed(d, val, a), NativeGreen(d, val, a), NativeBlue(d, val, a);
    ColorBits(r, g, b);
    AlphaOver(Or32(Or32(r, g), b), a);
  }

  lemma ColorBits(r: Word, g: Word, b: Word)
    requires r < 0x100_0000 && g < 0x100_0000 && b < 0x100_0000
    ensures Or32(Or32(r, g), b) < 0x100_0000
  {
    Pow2Values();
    OrBound(r, g, 24, 0x100_0000);
    OrBound(Or(r, g), b, 24, 0x100_0000);
  }

  /** `lo | (a << 24)` with lo below the alpha byte has alpha a. */
  lemma AlphaOver(lo: Word, a: Byte)
    requires lo < 0x100_0000
    ensures AlphaOf(Or32(lo, Shl(a, 24))) == a
  {
    Pow2Values();
    ShlValues(a);
    assert (a * 0x100_0000) % 0x100_0000 == 0 by { DivModUnique(a * 0x100_0000, 0x100_0000, a, 0); }
    OrDisjoint(a * 0x100_0000, lo, 24, 0x100_0000);
    DivModUnique(a * 0x100_0000 + lo, 0x100_0000, a, lo);
  }

  /** On the 32-bit display the native pixel is the premultiplied pixel. */
  lemma NativePixel888(val: Word)
    ensures NativePixel(Display888, val) == Premultiplied(val)
  {
    ShrValues(val);
    var a := AlphaOf(val);
    NativeRed888(val, a);
    NativeGreen888(val, a);
    NativeBlue888(val, a);
    ShlValues(a);
    OrFieldsRGBA(NativeRed(Display888, val, a), NativeGreen(Display888, val, a), NativeBlue(Display888, val, a),
                 Shl(a, 24), a, PremulChannel(RedOf(val), a), PremulChannel(GreenOf(val), a),
                 PremulChannel(BlueOf(val), a));
  }

  lemma NativeRed888(val: Word, a: Byte)
    ensures NativeRed(Display888, val, a) == PremulChannel(RedOf(val), a) * 0x1_0000
  {
    RedMask(val);
    var c := RedOf(val);
    RedTerm(c, a + 1);
    var k := c * (a + 1);
    var q := PremulChannel(c, a);
    MulNonneg(c, a + 1);
    assert Shr(Mul(And(val, 0xFF0000), a + 1), 8) == k * 0x100;
    ShrValues(k * 0x100);
    DivModUnique(k * 0x100, 0x1_0000, q, k % 0x100 * 0x100);
    ShlValues(q);
    InRedField(q);
  }

  lemma NativeGreen888(val: Word, a: Byte)
    ensures NativeGreen(Display888, val, a) == PremulChannel(GreenOf(val), a) * 0x100
  {
    GreenMask(val);
    var c := GreenOf(val);
    GreenTerm(c, a + 1);
    var k := c * (a + 1);
    var q := PremulChannel(c, a);
    MulNonneg(c, a + 1);
    assert Shr(Mul(And(val, 0xFF00), a + 1), 8) == k;
    ShrValues(k);
    ShlValues(q);
    InGreenField(q);
  }

  lemma NativeBlue888(val: Word, a: Byte)
    ensures NativeBlue(Display888, val, a) == PremulChannel(BlueOf(val), a)
  {
    BlueMask(val);
    var c := BlueOf(val);
    var k := c * (a + 1);
    var q := PremulChannel(c, a);
    MulNonneg(c, a + 1);
    ShrValues(k);
    ShrValues(q);
    ShlValues(q);
    BlueField(q);
  }

  // ---------------------------------------------------------------------------------
  // `GetBits` from the native copy: the expression, for any display.

  /** `(((((val & rMask) << 8) / (a + 1)) & rMask) << 8) >> rLeftShift` */
  function UnpremulRed(d: Display, val: Word, a: Byte): nat
  {
    Shr(Shl(And(Shl(And(val, d.redMask), 8) / (a + 1), d.redMask), 8), d.redShift + d.redBits)
  }

  function UnpremulGreen(d: Display, val: Word, a: Byte): nat
  {
    Shr(Shl(And(Shl(And(val, d.greenMask), 8) / (a + 1), d.greenMask), 8), d.greenShift + d.greenBits)
  }

  function UnpremulBlue(d: Display, val: Word, a: Byte): Word
  {
    ShrAtMost(Shl(And(Shl(And(val, d.blueMask), 8) / (a + 1), d.blueMask), 8), d.blueShift + d.blueBits);
    Shr(Shl(And(Shl(And(val, d.blueMask), 8) / (a + 1), d.blueMask), 8), d.blueShift + d.blueBits)
  }

  lemma ShrAtMost(x: nat, k: nat)
    ensures Shr(x, k) <= x
  {
    DivAtMost(x, Pow2(k), x) by {
      MulAtMost(1, Pow2(k), x + 1);
    }
  }

  /** The ARGB pixel `GetBits` rebuilds from a native pixel: `(r << 16) | (g << 8) | b | (a << 24)`. */
  function ArgbPixel(d: Display, val: Word): Word
  {
    ShrValues(val);
    var a := Shr(val, 24);
    Or32(Or32(Or32(Shl(UnpremulRed(d, val, a), 16), Shl(UnpremulGreen(d, val, a), 8)), UnpremulBlue(d, val, a)),
         Shl(a, 24))
  }

  /** On the 32-bit display `GetBits` divides every channel by alpha. */
  lemma ArgbPixel888(val: Word)
    ensures ArgbPixel(Display888, val) == Unpremultiplied(val)
  {
    ShrValues(val);
    var a := AlphaOf(val);
    var r, g, b := UnpremulChannel(RedOf(val), a), UnpremulChannel(GreenOf(val), a), UnpremulChannel(BlueOf(val), a);
    UnpremulRed888(val, a);
    UnpremulGreen888(val, a);
    UnpremulBlue888(val, a);
    ShlValues(r);
    ShlValues(g);
    ShlValues(a);
    OrFieldsRGBA(Shl(r, 16), Shl(g, 8), b, Shl(a, 24), a, r, g, b);
  }

  lemma UnpremulRed888(val: Word, a: Byte)
    ensures UnpremulRed(Display888, val, a) == UnpremulChannel(RedOf(val), a)
  {
    RedMask(val);
    UnpremulRedBytes(RedOf(val), a);
  }

  lemma UnpremulRedBytes(c: Byte, a: Byte)
    ensures Shr(Shl(And(Shl(c * 0x1_0000, 8) / (a + 1), 0xFF0000), 8), 24) == UnpremulChannel(c, a)
  {
    Shl8(c * 0x1_0000, c * 0x100_0000);
    UnpremulRedDiv(c, a);
    var u: int := UnpremulChannel(c, a);
    Shl8(u * 0x1_0000, u * 0x100_0000);
    ShrValues(u * 0x100_0000);
    DivModUnique(u * 0x100_0000, 0x100_0000, u, 0);
  }

  lemma UnpremulRedDiv(c: Byte, a: Byte)
    ensures And(c * 0x100_0000 / (a + 1), 0xFF0000) == UnpremulChannel(c, a) * 0x1_0000
  {
    var x := c * 0x100_0000 / (a + 1);
    RedMask(x);
    DivDiv(c * 0x100_0000, a + 1, 0x1_0000);
    assert c * 0x100_0000 == (c * 0x100) * 0x1_0000;
    DivCancel(c * 0x100, a + 1, 0x1_0000);
  }

  lemma UnpremulGreen888(val: Word, a: Byte)
    ensures UnpremulGreen(Display888, val, a) == UnpremulChannel(GreenOf(val), a)
  {
    GreenMask(val);
    UnpremulGreenBytes(GreenOf(val), a);
  }

  lemma UnpremulGreenBytes(c: Byte, a: Byte)
    ensures Shr(Shl(And(Shl(c * 0x100, 8) / (a + 1), 0xFF00), 8), 16) == UnpremulChannel(c, a)
  {
    Shl8(c * 0x100, c * 0x1_0000);
    UnpremulGreenDiv(c, a);
    var u: int := UnpremulChannel(c, a);
    Shl8(u * 0x100, u * 0x1_0000);
    ShrValues(u * 0x1_0000);
    DivModUnique(u * 0x1_0000, 0x1_0000, u, 0);
  }

  lemma UnpremulGreenDiv(c: Byte, a: Byte)
    ensures And(c * 0x1_0000 / (a + 1), 0xFF00) == UnpremulChannel(c, a) * 0x100
  {
    var x := c * 0x1_0000 / (a + 1);
    GreenMask(x);
    DivDiv(c * 0x1_0000, a + 1, 0x100);
    assert c * 0x1_0000 == (c * 0x100) * 0x100;
    DivCancel(c * 0x100, a + 1, 0x100);
  }

  lemma UnpremulBlue888(val: Word, a: Byte)
    ensures UnpremulBlue(Display888, val, a) == UnpremulChannel(BlueOf(val), a)
  {
    BlueMask(val);
    UnpremulBlueBytes(BlueOf(val), a);
  }

  lemma UnpremulBlueBytes(c: Byte, a: Byte)
    ensures Shr(Shl(And(Shl(c, 8) / (a + 1), 0xFF), 8), 8) == UnpremulChannel(c, a)
  {
    Shl8(c, c * 0x100);
    BlueMask(c * 0x100 / (a + 1));
    var u: int := UnpremulChannel(c, a);
    Shl8(u, u * 0x100);
    ShrValues(u * 0x100);
    DivModUnique(u * 0x100, 0x100, u, 0);
  }

  /** `x << 8` of a value whose shifted bits still fit in 32. */
  lemma Shl8(x: nat, y: nat)
    requires y == x * 0x100 && y < WordLimit
    ensures Shl(x, 8) == y
  {
    Pow2Values();
    DivModUnique(y, WordLimit, 0, y);
  }

  /** A byte placed in the red, green or blue field stays there under the field's mask. */
  lemma InRedField(q: Byte)
    ensures And(q * 0x1_0000, 0xFF0000) == q * 0x1_0000
  {
    RedMask(q * 0x1_0000);
    DivModUnique(q * 0x1_0000, 0x1_0000, q, 0);
    DivModUnique(q, 0x100, 0, q);
  }

  lemma InGreenField(q: Byte)
    ensures And(q * 0x100, 0xFF00) == q * 0x100
  {
    GreenMask(q * 0x100);
    DivModUnique(q * 0x100, 0x100, q, 0);
    DivModUnique(q, 0x100, 0, q);
  }
}

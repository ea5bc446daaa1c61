/** 32-bit ARGB pixels, colours and the per-pixel arithmetic of the software renderer:
    compositing, premultiplication into the display's native layout and back, and the
    colours the line drawers write. Every function here follows the mask-and-shift
    expression of the image code; the lemmas say what those expressions compute per channel. */
module Pixel {
  import opened Bits

  /** A colour with 8-bit channels. */
  datatype Color = Color(red: Byte, green: Byte, blue: Byte, alpha: Byte)

  /** The packed value alpha:red:green:blue, 8 bits each, alpha in the top byte. */
  function Pack(a: Byte, r: Byte, g: Byte, b: Byte): Word
  {
    a * 0x100_0000 + r * 0x1_0000 + g * 0x100 + b
  }

  /** `Color::ToInt`: the usual ARGB packing. */
  function ToInt(c: Color): Word
  {
    Pack(c.alpha, c.red, c.green, c.blue)
  }

  /** `p >> 24` */
  function AlphaOf(p: Word): Byte
  {
    p / 0x100_0000
  }

  function RedOf(p: Word): Byte
  {
    p / 0x1_0000 % 0x100
  }

  function GreenOf(p: Word): Byte
  {
    p / 0x100 % 0x100
  }

  function BlueOf(p: Word): Byte
  {
    p % 0x100
  }

  lemma PackChannels(a: Byte, r: Byte, g: Byte, b: Byte)
    ensures AlphaOf(Pack(a, r, g, b)) == a && RedOf(Pack(a, r, g, b)) == r
    ensures GreenOf(Pack(a, r, g, b)) == g && BlueOf(Pack(a, r, g, b)) == b
  {
    var p := Pack(a, r, g, b);
    DivModUnique(p, 0x100_0000, a, r * 0x1_0000 + g * 0x100 + b);
    DivModUnique(p, 0x1_0000, a * 0x100 + r, g * 0x100 + b);
    DivModUnique(a * 0x100 + r, 0x100, a, r);
    DivModUnique(p, 0x100, a * 0x1_0000 + r * 0x100 + g, b);
    DivModUnique(a * 0x1_0000 + r * 0x100 + g, 0x100, a * 0x100 + r, g);
  }

  lemma UnpackPack(p: Word)
    ensures Pack(AlphaOf(p), RedOf(p), GreenOf(p), BlueOf(p)) == p
  {
    var a, lo := p / 0x100_0000, p % 0x100_0000;
    var r, lo2 := lo / 0x1_0000, lo % 0x1_0000;
    var g, b := lo2 / 0x100, lo2 % 0x100;
    assert p == a * 0x100_0000 + r * 0x1_0000 + g * 0x100 + b;
    DivModUnique(p, 0x1_0000, a * 0x100 + r, lo2);
    DivModUnique(a * 0x100 + r, 0x100, a * 0x1, r);
    DivModUnique(p, 0x100, a * 0x1_0000 + r * 0x100 + g, b);
    DivModUnique(a * 0x1_0000 + r * 0x100 + g, 0x100, a * 0x100 + r, g);
  }

  /** The shifts of the pixel code as division. */
  lemma ShrValues(x: nat)
    ensures Shr(x, 0) == x && Shr(x, 8) == x / 0x100 && Shr(x, 16) == x / 0x1_0000
    ensures Shr(x, 24) == x / 0x100_0000
  {
    Pow2Values();
  }

  /** The masks of the pixel code as division and remainder. */
  lemma Masks(x: nat)
    ensures And(x, 0xFF) == x % 0x100
    ensures And(x, 0xFF00) == x / 0x100 % 0x100 * 0x100
    ensures And(x, 0xFF0000) == x / 0x1_0000 % 0x100 * 0x1_0000
    ensures And(x, 0xFFFFFF) == x % 0x100_0000
  {
    Pow2Values();
    AndLowMask(x, 8, 0x100);
    AndLowMask(x, 24, 0x100_0000);
    AndFieldMask(x, 8, 0x100, 8, 0x100);
    AndFieldMask(x, 16, 0x1_0000, 8, 0x100);
  }

  lemma BlueMask(x: nat)
    ensures And(x, 0xFF) == x % 0x100
  {
    Pow2Values();
    AndLowMask(x, 8, 0x100);
  }

  lemma GreenMask(x: nat)
    ensures And(x, 0xFF00) == x / 0x100 % 0x100 * 0x100
  {
    Pow2Values();
    AndFieldMask(x, 8, 0x100, 8, 0x100);
  }

  lemma RedMask(x: nat)
    ensures And(x, 0xFF0000) == x / 0x1_0000 % 0x100 * 0x1_0000
  {
    Pow2Values();
    AndFieldMask(x, 16, 0x1_0000, 8, 0x100);
  }

  lemma ColorMask(x: nat)
    ensures And(x, 0xFFFFFF) == x % 0x100_0000
  {
    Pow2Values();
    AndLowMask(x, 24, 0x100_0000);
  }

  lemma ShlValues(x: Byte)
    ensures Shl(x, 0) == x && Shl(x, 8) == x * 0x100 && Shl(x, 16) == x * 0x1_0000
    ensures Shl(x, 24) == x * 0x100_0000
  {
    Pow2Values();
    DivModUnique(x, WordLimit, 0, x);
    DivModUnique(x * 0x100, WordLimit, 0, x * 0x100);
    DivModUnique(x * 0x1_0000, WordLimit, 0, x * 0x1_0000);
    DivModUnique(x * 0x100_0000, WordLimit, 0, x * 0x100_0000);
  }

  /** `(a << 24) | b | (g << 8) | (r << 16)`, the order the compositing code writes. */
  lemma OrPackABGR(a: Byte, r: Byte, g: Byte, b: Byte)
    ensures Or(Or(Or(a * 0x100_0000, b), g * 0x100), r * 0x1_0000) == Pack(a, r, g, b)
  {
    var hi, rf, gf := a * 0x100_0000, r * 0x1_0000, g * 0x100;
    Pow2Values();
    assert hi % 0x100_0000 == 0 by { DivModUnique(hi, 0x100_0000, a, 0); }
    assert gf % 0x100 == 0 by { DivModUnique(gf, 0x100, g, 0); }
    assert rf % 0x1_0000 == 0 by { DivModUnique(rf, 0x1_0000, r, 0); }
    var x, y := gf + b, rf + gf + b;
    OrAssoc(hi, b, gf);
    OrDisjoint(gf, b, 8, 0x100);
    assert Or(b, gf) == x;
    OrDisjoint(hi, x, 24, 0x100_0000);
    assert Or(Or(hi, b), gf) == hi + x;
    OrAssoc(hi, x, rf);
    OrDisjoint(rf, x, 16, 0x1_0000);
    assert Or(x, rf) == y;
    OrDisjoint(hi, y, 24, 0x100_0000);
  }

  /** `OrPackABGR` for fields given as terms. */
  lemma OrFieldsABGR(hi: nat, lo: nat, mid: nat, top: nat, a: Byte, r: Byte, g: Byte, b: Byte)
    requires hi == a * 0x100_0000 && lo == b && mid == g * 0x100 && top == r * 0x1_0000
    ensures Or(Or(Or(hi, lo), mid), top) == Pack(a, r, g, b)
  {
    OrPackABGR(a, r, g, b);
  }

  /** `(a << 24) | (r << 16) | (g << 8) | b`, the order the line drawers write. */
  lemma OrPackARGB(a: Byte, r: Byte, g: Byte, b: Byte)
    ensures Or(Or(Or(a * 0x100_0000, r * 0x1_0000), g * 0x100), b) == Pack(a, r, g, b)
  {
    var hi, rf, gf := a * 0x100_0000, r * 0x1_0000, g * 0x100;
    Pow2Values();
    assert hi % 0x100_0000 == 0 by { DivModUnique(hi, 0x100_0000, a, 0); }
    assert rf % 0x1_0000 == 0 by { DivModUnique(rf, 0x1_0000, r, 0); }
    var x, y := rf + gf, rf + gf + b;
    OrAssoc(hi, rf, gf);
    OrDisjoint(rf, gf, 16, 0x1_0000);
    assert Or(rf, gf) == x;
    OrDisjoint(hi, x, 24, 0x100_0000);
    assert Or(Or(hi, rf), gf) == hi + x;
    OrAssoc(hi, x, b);
    assert x % 0x100 == 0 by { DivModUnique(x, 0x100, r * 0x100 + g, 0); }
    OrDisjoint(x, b, 8, 0x100);
    assert Or(x, b) == y;
    OrDisjoint(hi, y, 24, 0x100_0000);
  }

  /** `OrPackARGB` for fields given as terms. */
  lemma OrFieldsARGB(hi: nat, top: nat, mid: nat, lo: nat, a: Byte, r: Byte, g: Byte, b: Byte)
    requires hi == a * 0x100_0000 && top == r * 0x1_0000 && mid == g * 0x100 && lo == b
    ensures Or(Or(Or(hi, top), mid), lo) == Pack(a, r, g, b)
  {
    OrPackARGB(a, r, g, b);
  }

  /** `r | g | b | (a << 24)`, the order of the native conversion. */
  lemma OrPackRGBA(a: Byte, r: Byte, g: Byte, b: Byte)
    ensures Or(Or(Or(r * 0x1_0000, g * 0x100), b), a * 0x100_0000) == Pack(a, r, g, b)
  {
    var hi, rf, gf := a * 0x100_0000, r * 0x1_0000, g * 0x100;
    Pow2Values();
    assert hi % 0x100_0000 == 0 by { DivModUnique(hi, 0x100_0000, a, 0); }
    assert rf % 0x1_0000 == 0 by { DivModUnique(rf, 0x1_0000, r, 0); }
    var x, y := rf + gf, rf + gf + b;
    OrDisjoint(rf, gf, 16, 0x1_0000);
    assert Or(rf, gf) == x;
    assert x % 0x100 == 0 by { DivModUnique(x, 0x100, r * 0x100 + g, 0); }
    OrDisjoint(x, b, 8, 0x100);
    assert Or(x, b) == y;
    OrDisjoint(hi, y, 24, 0x100_0000);
  }

  /** `OrPackRGBA` for fields given as terms. */
  lemma OrFieldsRGBA(top: nat, mid: nat, lo: nat, hi: nat, a: Byte, r: Byte, g: Byte, b: Byte)
    requires top == r * 0x1_0000 && mid == g * 0x100 && lo == b && hi == a * 0x100_0000
    ensures Or(Or(Or(top, mid), lo), hi) == Pack(a, r, g, b)
  {
    OrPackRGBA(a, r, g, b);
  }

  /** The red, green and blue fields of a word, in place. */
  lemma ChannelFields(x: Word)
    ensures And(x, 0xFF0000) == RedOf(x) * 0x1_0000
    ensures And(x, 0xFF00) == GreenOf(x) * 0x100
    ensures And(x, 0xFF) == BlueOf(x)
    ensures Shr(x, 24) == AlphaOf(x)
  {
    RedMask(x);
    GreenMask(x);
    BlueMask(x);
    ShrValues(x);
  }

  /** A red term `((x & 0xFF0000) * k) >> 8` keeps its factor 256. */
  lemma RedTerm(c: Byte, k: nat)
    ensures Shr(c * 0x1_0000 * k, 8) == c * k * 0x100
  {
    var m := c * k;
    assert c * 0x1_0000 * k == m * 0x100 * 0x100;
    ShrValues(m * 0x100 * 0x100);
    DivModUnique(m * 0x100 * 0x100, 0x100, m * 0x100, 0);
  }

  /** A green term `((x & 0xFF00) * k) >> 8` loses its factor 256. */
  lemma GreenTerm(c: Byte, k: nat)
    ensures Shr(c * 0x100 * k, 8) == c * k
  {
    var m := c * k;
    assert c * 0x100 * k == m * 0x100;
    ShrValues(m * 0x100);
    DivModUnique(m * 0x100, 0x100, m, 0);
  }

  /** Masking `256 * k` with the red field keeps `k >> 8` in place. */
  lemma RedField(k: nat)
    requires k < 0x1_0000
    ensures And(k * 0x100, 0xFF0000) == k / 0x100 * 0x1_0000
  {
    RedMask(k * 0x100);
    DivModUnique(k * 0x100, 0x1_0000, k / 0x100, k % 0x100 * 0x100);
    DivModUnique(k / 0x100, 0x100, 0, k / 0x100);
  }

  /** Masking k with the green field keeps `k >> 8` in place. */
  lemma GreenField(k: nat)
    requires k < 0x1_0000
    ensures And(k, 0xFF00) == k / 0x100 * 0x100
  {
    GreenMask(k);
    DivModUnique(k / 0x100, 0x100, 0, k / 0x100);
  }

  lemma BlueField(k: nat)
    requires k < 0x100
    ensures And(k, 0xFF) == k
  {
    BlueMask(k);
    DivModUnique(k, 0x100, 0, k);
  }
}

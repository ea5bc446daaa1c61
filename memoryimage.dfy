/** `MemoryImage`: a software pixel buffer of 32-bit ARGB pixels.  Its picture is held in
    one of several forms: dense pixels `bits` (with a guard word after the last pixel), a
    256-entry palette with one index byte per pixel, or only the premultiplied native copy
    the display uses.  Three caches are derived from the picture on demand and dropped
    whenever the pixels change.  When none of the forms exists the pixels are rebuilt from
    the 3-D backend or taken to be zero.

    The collaborators outside the image (the display layout, the 3-D backend, the
    application's saturation table and the palette quantiser) are the parameter `env`. */
module Image {
  import opened Bits
  import opened Pixel
  import opened Blend
  import opened Native
  import opened LinePixel
  import opened Grid
  import opened Paint
  import opened Coverage
  import opened Draw
  import Line
  import Rle

  /** The guard word stored after the last pixel: `MEMORYCHECK_ID`. */
  const MemoryCheckId: Word := 0x4BEE_FADE

  /** `Graphics::DRAWMODE_NORMAL` and `Graphics::DRAWMODE_ADDITIVE`. */
  const DrawModeNormal: int := 0
  const DrawModeAdditive: int := 1

  datatype Option<T> = None | Some(value: T)

  /** What the quantiser writes: an index byte per pixel and 256 palette entries. */
  datatype Palette = Palette(index: int -> Byte, entry: int -> Word)

  /** The image's collaborators.
      - `display`: the native pixel layout of the application's display;
      - `accelerated`: `Is3DAccelerated()`;
      - `recovered`: what `RecoverBits` yields, `None` when it fails;
      - `maxTable`: the application's `mAdd8BitMaxTable`;
      - `quantize`: `Quantize8Bit` on the pixels, width and height, `None` when it fails. */
  datatype Env = Env(display: Display, accelerated: bool, recovered: Option<seq<Word>>, maxTable: MaxTable,
                     quantize: (seq<Word>, nat, nat) -> Option<Palette>)

  /** The image's flags and change counter. */
  datatype FlagSet = FlagSet(hasTrans: bool, hasAlpha: bool, bitsChanged: bool, forcedMode: bool,
                             isVolatile: bool, purgeBits: bool, wantPal: bool, drawn: bool,
                             hasD3DData: bool, bitsChangedCount: nat)

  /** The image's dimensions and buffers. */
  datatype BufferSet = BufferSet(width: nat, height: nat, bits: array?<Word>, colorTable: array?<Word>,
                             colorIndices: array?<Byte>, nativeAlphaData: array?<Word>,
                             rlAlphaData: array?<Byte>, rlAdditiveData: array?<Byte>)

  /** The buffers after `GetBits`: a missing pixel buffer is r, and a palette it was made
      from is gone together with the native palette. */
  function Materialised(b: BufferSet, r: array<Word>): BufferSet
  {
    if b.bits != null then b
    else if b.colorTable != null then b.(bits := r, colorTable := null, colorIndices := null, nativeAlphaData := null)
    else b.(bits := r)
  }

  /** The buffers after the caches are dropped by `BitsChanged`. */
  function Uncached(b: BufferSet): BufferSet
  {
    b.(nativeAlphaData := null, rlAlphaData := null, rlAdditiveData := null)
  }

  /** The buffers after a drawing operation: `GetBits`, then `BitsChanged`. */
  function Redrawn(b: BufferSet, r: array<Word>): BufferSet
  {
    Uncached(Materialised(b, r))
  }

  /** The buffers after `PurgeBits` drops the pixel buffer; with 3-D data the palette
      goes too, and so does its native palette. */
  function Dropped(b: BufferSet, hasD3DData: bool): BufferSet
  {
    if !hasD3DData then b.(bits := null)
    else b.(bits := null, colorTable := null, colorIndices := null,
            nativeAlphaData := if b.colorTable != null then null else b.nativeAlphaData)
  }

  /** Whether `PurgeBits` goes on to drop the pixel buffer: with 3-D acceleration only
      when the backend holds the picture, otherwise when there is a buffer or a palette
      to make the native copy from. */
  predicate Proceeds(env: Env, b: BufferSet, f: FlagSet)
  {
    if env.accelerated then f.hasD3DData else b.bits != null || b.colorIndices != null
  }

  /** What `Palletize` leaves (buffers b1, flags f1, picture c1), started on buffers b0,
      flags f0, picture c0 and alpha analysis a0 and returning ok.  The flags are
      committed first; a palette image stays as it is; otherwise the quantiser is run on
      the picture, and its table and indices replace the pixel buffer and the native copy
      when it succeeds, while on failure the pixel buffer is made and kept. */
  ghost predicate Palletized(env: Env, b0: BufferSet, f0: FlagSet, c0: seq<Word>, a0: (bool, bool), ok: bool,
                             b1: BufferSet, f1: FlagSet, c1: seq<Word>)
    reads b1.colorTable, b1.colorIndices
  {
    var committed := Commit(f0, a0.0, a0.1);
    b1.width == b0.width && b1.height == b0.height &&
    if b0.colorTable != null then ok && b1 == b0 && f1 == committed && c1 == c0
    else
      var q := env.quantize(c0, b0.width, b0.height);
      (ok <==> q.Some?) &&
      if !ok then
        b1.bits != null && (b0.bits != null ==> b1.bits == b0.bits) && b1 == b0.(bits := b1.bits) &&
        f1 == committed.(wantPal := false) && c1 == c0
      else
        b1.colorTable != null && b1.colorIndices != null &&
        b1.colorTable[..] == seq(256, i => q.value.entry(i)) &&
        b1.colorIndices[..] == seq(Mul(b0.width, b0.height), i => q.value.index(i)) &&
        b1 == b0.(bits := null, colorTable := b1.colorTable, colorIndices := b1.colorIndices, nativeAlphaData := null) &&
        f1 == committed.(wantPal := true) && c1 == Expand(b1.colorTable[..], b1.colorIndices[..])
  }

  /** What `PurgeBits` leaves (buffers b1, flags f1, picture c1), started on buffers b0,
      flags f0, picture c0 and alpha analysis a0.  `purgeBits` is set in every case.  When
      the purge proceeds with 3-D acceleration the buffers are `Dropped`; without it the
      native copy is made first, committing the flags when it was missing. */
  ghost predicate Purged(env: Env, b0: BufferSet, f0: FlagSet, c0: seq<Word>, a0: (bool, bool),
                         b1: BufferSet, f1: FlagSet, c1: seq<Word>)
    requires ValidDisplay(env.display)
    reads b0.colorTable, b1.nativeAlphaData
  {
    if !Proceeds(env, b0, f0) then b1 == b0 && f1 == f0.(purgeBits := true) && c1 == c0
    else if env.accelerated then b1 == Dropped(b0, true) && f1 == f0.(purgeBits := true)
    else
      f1 == (if b0.nativeAlphaData == null then Commit(f0, a0.0, a0.1) else f0).(purgeBits := true) &&
      SoftwarePurged(env, b0, f0.hasD3DData, c0, b1, c1)
  }

  /** The buffers and picture the purge without 3-D acceleration leaves: the native copy
      is made (of the palette for a palette image, else of the picture) and the buffers
      are then `Dropped`.  The picture becomes the native copy read back, or stays the
      palette's when the palette is kept. */
  ghost predicate SoftwarePurged(env: Env, b0: BufferSet, hasD3DData: bool, c0: seq<Word>, b1: BufferSet, c1: seq<Word>)
    requires ValidDisplay(env.display)
    reads b0.colorTable, b1.nativeAlphaData
  {
    b1 == Dropped(b0.(nativeAlphaData := b1.nativeAlphaData), hasD3DData) &&
    (b1.nativeAlphaData == null <==> hasD3DData && b0.colorTable != null) &&
    (b0.nativeAlphaData != null && b1.nativeAlphaData != null ==> b1.nativeAlphaData == b0.nativeAlphaData) &&
    (b0.nativeAlphaData == null && b1.nativeAlphaData != null ==>
       b1.nativeAlphaData[..] == NativeOf(env.display, if b0.colorTable != null then b0.colorTable[..] else c0)) &&
    (b0.colorTable == null ==> c1 == Unpremultiply(env.display, b1.nativeAlphaData[..])) &&
    (b0.colorTable != null && !hasD3DData ==> c1 == c0)
  }

  /** The software purge gives `SoftwarePurged`: the native copy n is made, and then the
      buffers are `Dropped`. */
  lemma PurgedBySoftware(env: Env, b0: BufferSet, hasD3DData: bool, c0: seq<Word>, n: array<Word>,
                         b1: BufferSet, c1: seq<Word>)
    requires ValidDisplay(env.display)
    requires b0.nativeAlphaData != null ==> n == b0.nativeAlphaData
    requires b0.nativeAlphaData == null ==>
      n[..] == NativeOf(env.display, if b0.colorTable != null then b0.colorTable[..] else c0)
    requires b1 == Dropped(b0.(nativeAlphaData := n), hasD3DData)
    requires b0.colorTable == null ==> c1 == Unpremultiply(env.display, n[..])
    requires b0.colorTable != null && !hasD3DData ==> c1 == c0
    ensures SoftwarePurged(env, b0, hasD3DData, c0, b1, c1)
  {
  }

  // ---------------------------------------------------------------------------------
  // The picture and the alpha analysis.

  /** Some pixel is fully transparent. */
  predicate SomeTransparent(s: seq<Word>)
  {
    exists i :: 0 <= i < |s| && AlphaOf(s[i]) == 0
  }

  /** Some pixel is translucent: neither fully transparent nor opaque. */
  predicate SomeTranslucent(s: seq<Word>)
  {
    exists i :: 0 <= i < |s| && 0 < AlphaOf(s[i]) < 255
  }

  /** The pixels of a palette image: each index looked up in the table. */
  function Expand(table: seq<Word>, indices: seq<Byte>): (s: seq<Word>)
    requires |table| == 256
    ensures |s| == |indices|
  {
    seq(|indices|, i requires 0 <= i < |indices| => table[indices[i]])
  }

  /** The ARGB pixels rebuilt from a native copy. */
  function Unpremultiply(d: Display, native: seq<Word>): (s: seq<Word>)
    ensures |s| == |native|
  {
    seq(|native|, i requires 0 <= i < |native| => ArgbPixel(d, native[i]))
  }

  /** The native copy of some pixels. */
  function NativeOf(d: Display, s: seq<Word>): (r: seq<Word>)
    requires ValidDisplay(d)
    ensures |r| == |s|
  {
    seq(|s|, i requires 0 <= i < |s| => NativePixel(d, s[i]))
  }

  /** What `RecoverBits` leaves in n pixels: its pixels, the rest zero. */
  function Recovered(s: seq<Word>, n: nat): (r: seq<Word>)
    ensures |r| == n
  {
    seq(n, i => if 0 <= i < |s| then s[i] else 0)
  }

  /** `CommitBits` on the flags: the analysis is taken only when the pixels changed and
      the mode is not forced. */
  function Commit(f: FlagSet, trans: bool, alpha: bool): (r: FlagSet)
    ensures r.forcedMode == f.forcedMode && r.bitsChangedCount == f.bitsChangedCount && r.wantPal == f.wantPal
    ensures !f.forcedMode ==> !r.bitsChanged
    ensures f.forcedMode || !f.bitsChanged ==> r == f
    ensures f.bitsChanged && !f.forcedMode ==> r.hasTrans == trans && r.hasAlpha == alpha
  {
    if f.bitsChanged && !f.forcedMode then f.(hasTrans := trans, hasAlpha := alpha, bitsChanged := false) else f
  }

  /** A second `CommitBits` changes nothing. */
  lemma CommitIdempotent(f: FlagSet, trans: bool, alpha: bool, trans': bool, alpha': bool)
    ensures Commit(Commit(f, trans, alpha), trans', alpha') == Commit(f, trans, alpha)
  {
  }

  /** `BitsChanged` on the flags. */
  function Changed(f: FlagSet): FlagSet
  {
    f.(bitsChanged := true, bitsChangedCount := f.bitsChangedCount + 1)
  }

  /** The alpha loop of `CommitBits`: `(uchar)(*ptr++ >> 24)` tested against 0 and 255. */
  method ScanAlpha(a: array<Word>, n: nat) returns (trans: bool, alpha: bool)
    requires n <= a.Length
    ensures trans == SomeTransparent(a[..n]) && alpha == SomeTranslucent(a[..n])
  {
    trans, alpha := false, false;
    for i := 0 to n
      invariant trans == SomeTransparent(a[..i]) && alpha == SomeTranslucent(a[..i])
    {
      ChannelFields(a[i]);
      var anAlpha := Shr(a[i], 24);
      if anAlpha == 0 {
        trans := true;
      } else if anAlpha != 255 {
        alpha := true;
      }
      assert a[..i + 1] == a[..i] + [a[i]];
      FirstAndLast(a[..i], a[i]);
    }
  }

  lemma FirstAndLast(s: seq<Word>, p: Word)
    ensures SomeTransparent(s + [p]) == (SomeTransparent(s) || AlphaOf(p) == 0)
    ensures SomeTranslucent(s + [p]) == (SomeTranslucent(s) || 0 < AlphaOf(p) < 255)
  {
    var t := s + [p];
    assert t[|s|] == p;
    if SomeTransparent(s) {
      var i :| 0 <= i < |s| && AlphaOf(s[i]) == 0;
      assert t[i] == s[i];
    }
    if SomeTranslucent(s) {
      var i :| 0 <= i < |s| && 0 < AlphaOf(s[i]) < 255;
      assert t[i] == s[i];
    }
    if SomeTransparent(t) {
      var i :| 0 <= i < |t| && AlphaOf(t[i]) == 0;
      if i < |s| {
        assert s[i] == t[i];
      }
    }
    if SomeTranslucent(t) {
      var i :| 0 <= i < |t| && 0 < AlphaOf(t[i]) < 255;
      if i < |s| {
        assert s[i] == t[i];
      }
    }
  }

  // ---------------------------------------------------------------------------------
  // The loops of `GetBits`: a new pixel buffer, with the guard word after the pixels.

  /** `mBits[i] = mColorTable[mColorIndices[i]]`. */
  method ExpandPalette(table: array<Word>, indices: array<Byte>, n: nat) returns (a: array<Word>)
    requires table.Length == 256 && indices.Length == n
    ensures fresh(a) && a.Length == n + 1 && a[n] == MemoryCheckId
    ensures a[..n] == Expand(table[..], indices[..])
  {
    a := new Word[n + 1];
    a[n] := MemoryCheckId;
    for i := 0 to n
      invariant a[n] == MemoryCheckId
      invariant forall k :: 0 <= k < i ==> a[k] == table[indices[k]]
    {
      a[i] := table[indices[i]];
    }
  }

  /** The native copy turned back into ARGB pixels. */
  method UnpremultiplyAll(d: Display, native: array<Word>, n: nat) returns (a: array<Word>)
    requires native.Length == n
    ensures fresh(a) && a.Length == n + 1 && a[n] == MemoryCheckId
    ensures a[..n] == Unpremultiply(d, native[..])
  {
    a := new Word[n + 1];
    a[n] := MemoryCheckId;
    for i := 0 to n
      invariant a[n] == MemoryCheckId
      invariant forall k :: 0 <= k < i ==> a[k] == ArgbPixel(d, native[k])
    {
      a[i] := ArgbPixel(d, native[i]);
    }
  }

  /** A buffer filled at once, by `memset` or by the 3-D backend. */
  method NewPixels(s: seq<Word>) returns (a: array<Word>)
    ensures fresh(a) && a.Length == |s| + 1 && a[|s|] == MemoryCheckId
    ensures a[..|s|] == s
  {
    a := new Word[|s| + 1];
    forall i | 0 <= i < |s| {
      a[i] := s[i];
    }
    a[|s|] := MemoryCheckId;
  }

  /** The loops of `GetNativeAlphaData`: every pixel, or every palette entry, premultiplied
      and placed in the display's layout. */
  method ToNative(d: Display, src: array<Word>, n: nat) returns (a: array<Word>)
    requires ValidDisplay(d) && n <= src.Length
    ensures fresh(a) && a[..] == NativeOf(d, src[..n])
  {
    a := new Word[n];
    for i := 0 to n
      invariant forall k :: 0 <= k < i ==> a[k] == NativePixel(d, src[k])
    {
      a[i] := NativePixel(d, src[i]);
    }
  }

  /** The native palette looked up by index is the native copy of the expanded pixels. */
  lemma NativeLookup(d: Display, palette: seq<Word>, indices: seq<Byte>, table: seq<Word>, cells: seq<Word>)
    requires ValidDisplay(d) && |palette| == 256 && table == NativeOf(d, palette)
    requires cells == seq(|indices|, i requires 0 <= i < |indices| => table[indices[i]])
    ensures cells == NativeOf(d, Expand(palette, indices))
  {
  }

  /** `for (i = 0; i < n; i++) *ptr++ = 0`: the loop of `Clear`. */
  method ZeroPixels(a: array<Word>, n: nat)
    requires n <= a.Length
    modifies a
    ensures a[..n] == Zeros(n) && a[n..] == old(a[n..])
  {
    for i := 0 to n
      invariant a[..i] == Zeros(i) && a[n..] == old(a[n..])
    {
      a[i] := 0;
      assert a[..i + 1] == Zeros(i + 1);
    }
  }

  /** The `memcpy` of `SetBits`: the first n pixels of `src` into `dest`. */
  method CopyPixels(dest: array<Word>, src: array<Word>, n: nat)
    requires dest != src && n <= dest.Length && n <= src.Length
    modifies dest
    ensures dest[..n] == src[..n] && dest[n..] == old(dest[n..])
  {
    for i := 0 to n
      invariant dest[..i] == src[..i] && dest[n..] == old(dest[n..])
    {
      dest[i] := src[i];
      assert dest[..i + 1] == src[..i + 1];
    }
  }

  /** The quantiser's index bytes for n pixels, in a new array. */
  method IndexArray(p: Palette, n: nat) returns (a: array<Byte>)
    ensures fresh(a) && a[..] == seq(n, i => p.index(i))
  {
    a := new Byte[n](i => p.index(i));
  }

  /** The quantiser's 256 palette entries, in a new array. */
  method TableArray(p: Palette) returns (a: array<Word>)
    ensures fresh(a) && a[..] == seq(256, i => p.entry(i))
  {
    a := new Word[256](i => p.entry(i));
  }

  class MemoryImage {
    var width: nat
    var height: nat

    /** `mBits`: width * height pixels and the guard word. */
    var bits: array?<Word>
    /** `mColorTable` and `mColorIndices`: the palette form. */
    var colorTable: array?<Word>
    var colorIndices: array?<Byte>

    /** The caches derived from the picture. */
    var nativeAlphaData: array?<Word>
    var rlAlphaData: array?<Byte>
    var rlAdditiveData: array?<Byte>

    /** `mHasTrans`, `mHasAlpha`, `mBitsChanged`, `mForcedMode`, `mIsVolatile`,
        `mPurgeBits`, `mWantPal`, the base class's `mDrawn`, whether `mD3DData` is set, and
        `mBitsChangedCount`. */
    var flags: FlagSet

    function Size(): nat
      reads this
    {
      Mul(width, height)
    }

    function Buffers(): BufferSet
      reads this
    {
      BufferSet(width, height, bits, colorTable, colorIndices, nativeAlphaData, rlAlphaData, rlAdditiveData)
    }

    /** The shape of the picture's forms: the pixel buffer ends with the guard word, a
        palette comes with its indices, and a palette image holds no pixel buffer. */
    ghost predicate Core()
      reads this, bits
    {
      (bits != null ==> bits.Length == Size() + 1 && bits[Size()] == MemoryCheckId && colorTable == null) &&
      (colorTable == null <==> colorIndices == null) &&
      (colorTable != null ==> colorTable.Length == 256 && colorIndices.Length == Size())
    }

    /** The caches' sizes: the native copy of a palette image is a native palette. */
    ghost predicate CachesFit()
      reads this
    {
      (nativeAlphaData != null ==> nativeAlphaData.Length == if colorTable != null then 256 else Size()) &&
      (rlAlphaData != null ==> rlAlphaData.Length == Size()) &&
      (rlAdditiveData != null ==> rlAdditiveData.Length == Size())
    }

    ghost predicate Valid()
      reads this, bits
    {
      Core() && CachesFit()
    }

    /** The picture: the pixels `GetBits` returns. */
    ghost function Contents(env: Env): (s: seq<Word>)
      reads this, bits, colorTable, colorIndices, nativeAlphaData
      requires Valid()
      ensures |s| == Size()
    {
      if bits != null then bits[..Size()]
      else if colorTable != null then Expand(colorTable[..], colorIndices[..])
      else if nativeAlphaData != null then Unpremultiply(env.display, nativeAlphaData[..])
      else if flags.hasD3DData && env.recovered.Some? then Recovered(env.recovered.value, Size())
      else Zeros(Size())
    }

    /** The outcome of `CommitBits`' analysis: over the pixels, else over the palette,
        else "transparent, not translucent". */
    ghost function Analysis(): (bool, bool)
      reads this, bits, colorTable
      requires Valid()
    {
      if bits != null then (SomeTransparent(bits[..Size()]), SomeTranslucent(bits[..Size()]))
      else if colorTable != null then (SomeTransparent(colorTable[..]), SomeTranslucent(colorTable[..]))
      else (true, false)
    }

    /** `Init`: no buffers, no flags set, no change counted. */
    constructor ()
      ensures Valid() && width == 0 && height == 0
      ensures bits == null && colorTable == null && colorIndices == null
      ensures nativeAlphaData == null && rlAlphaData == null && rlAdditiveData == null
      ensures flags == FlagSet(false, false, false, false, false, false, false, false, false, 0)
    {
      width, height := 0, 0;
      bits, colorTable, colorIndices := null, null, null;
      nativeAlphaData, rlAlphaData, rlAdditiveData := null, null, null;
      flags := FlagSet(false, false, false, false, false, false, false, false, false, 0);
    }

    /** The pixels changed: count it and drop the three caches. */
    method BitsChanged()
      modifies this
      ensures flags == Changed(old(flags))
      ensures Buffers() == Uncached(old(Buffers()))
      ensures Valid() <==> old(Core())
    {
      flags := flags.(bitsChanged := true, bitsChangedCount := flags.bitsChangedCount + 1);
      nativeAlphaData := null;
      rlAlphaData := null;
      rlAdditiveData := null;
    }

    /** Fixes the two alpha flags; `CommitBits` leaves them alone from now on. */
    method SetImageMode(trans: bool, alpha: bool)
      modifies this
      ensures flags == old(flags).(forcedMode := true, hasTrans := trans, hasAlpha := alpha)
      ensures Buffers() == old(Buffers())
    {
      flags := flags.(forcedMode := true, hasTrans := trans, hasAlpha := alpha);
    }

    method SetVolatile(volatile: bool)
      modifies this
      ensures flags == old(flags).(isVolatile := volatile)
      ensures Buffers() == old(Buffers())
    {
      flags := flags.(isVolatile := volatile);
    }

    /** Recomputes the alpha flags from the picture when the pixels changed and the mode
        is not forced. */
    method CommitBits()
      requires Valid()
      modifies this
      ensures flags == Commit(old(flags), old(Analysis()).0, old(Analysis()).1)
      ensures Buffers() == old(Buffers())
      ensures Valid()
    {
      if flags.bitsChanged && !flags.forcedMode {
        var trans, alpha;
        if bits != null {
          trans, alpha := ScanAlpha(bits, Size());
        } else if colorTable != null {
          trans, alpha := ScanAlpha(colorTable, 256);
          assert colorTable[..256] == colorTable[..];
        } else {
          trans := true;
          alpha := false;
        }
        flags := flags.(hasTrans := trans, hasAlpha := alpha, bitsChanged := false);
      }
    }

    /** The pixel buffer, made from the picture's current form when it is missing. */
    method GetBits(env: Env) returns (r: array<Word>)
      requires Valid()
      modifies this
      ensures Valid() && r == bits && flags == old(flags)
      ensures r[..Size()] == old(Contents(env))
      ensures old(bits) != null ==> r == old(bits) && Buffers() == old(Buffers())
      ensures old(bits) == null ==> fresh(r)
      ensures old(bits) == null && old(colorTable) != null ==>
        Buffers() == old(Buffers()).(bits := r, colorTable := null, colorIndices := null, nativeAlphaData := null)
      ensures old(bits) == null && old(colorTable) == null ==> Buffers() == old(Buffers()).(bits := r)
      ensures Buffers() == Materialised(old(Buffers()), r)
    {
      if bits == null {
        var a;
        if colorTable != null {
          a := ExpandPalette(colorTable, colorIndices, Size());
          colorIndices := null;
          colorTable := null;
          nativeAlphaData := null;
        } else if nativeAlphaData != null {
          a := UnpremultiplyAll(env.display, nativeAlphaData, Size());
        } else if !flags.hasD3DData || env.recovered.None? {
          a := NewPixels(Zeros(Size()));
        } else {
          a := NewPixels(Recovered(env.recovered.value, Size()));
        }
        bits := a;
      }
      r := bits;
    }

    /** The native copy as one value per pixel: a palette image's is looked up by index. */
    ghost function NativeCells(): (s: seq<Word>)
      reads this, bits, nativeAlphaData, colorIndices
      requires Valid() && nativeAlphaData != null
      ensures |s| == Size()
    {
      if colorTable == null then nativeAlphaData[..]
      else
        var table, indices := nativeAlphaData[..], colorIndices[..];
        seq(|indices|, i requires 0 <= i < |indices| => table[indices[i]])
    }

    /** Reads the native copy one value per pixel. */
    method ReadNativeCells() returns (cells: seq<Word>)
      requires Valid() && nativeAlphaData != null
      ensures cells == NativeCells()
    {
      if colorTable == null {
        cells := nativeAlphaData[..];
      } else {
        var table, indices := nativeAlphaData[..], colorIndices[..];
        cells := seq(|indices|, i requires 0 <= i < |indices| => table[indices[i]]);
      }
    }

    /** The premultiplied copy in the display's layout, made after committing the alpha
        flags when it is missing: one entry per pixel, or per palette entry. */
    method GetNativeAlphaData(env: Env) returns (r: array<Word>)
      requires Valid() && ValidDisplay(env.display)
      modifies this
      ensures Valid() && r == nativeAlphaData && Contents(env) == old(Contents(env))
      ensures old(nativeAlphaData) != null ==> r == old(nativeAlphaData) && flags == old(flags) && Buffers() == old(Buffers())
      ensures old(nativeAlphaData) == null ==> fresh(r) && flags == Commit(old(flags), old(Analysis()).0, old(Analysis()).1)
      ensures old(nativeAlphaData) == null && old(colorTable) != null ==>
        r[..] == NativeOf(env.display, old(colorTable[..])) && Buffers() == old(Buffers()).(nativeAlphaData := r)
      ensures old(nativeAlphaData) == null && old(colorTable) == null ==>
        r[..] == NativeOf(env.display, old(Contents(env))) && bits != null && (old(bits) != null ==> bits == old(bits)) &&
        (old(bits) == null ==> fresh(bits)) && Buffers() == old(Buffers()).(bits := bits, nativeAlphaData := r)
    {
      if nativeAlphaData != null {
        return nativeAlphaData;
      }
      CommitBits();
      if colorTable == null {
        var src := GetBits(env);
        nativeAlphaData := ToNative(env.display, src, Size());
      } else {
        nativeAlphaData := ToNative(env.display, colorTable, 256);
        assert colorTable[..256] == colorTable[..];
      }
      r := nativeAlphaData;
    }

    /** The run-length table of the native copy, built when it is missing. */
    method GetRLAdditiveData(env: Env) returns (r: array<Byte>)
      requires Valid() && ValidDisplay(env.display) && (height > 0 ==> width > 0)
      modifies this
      ensures Valid() && r == rlAdditiveData && Contents(env) == old(Contents(env))
      ensures old(rlAdditiveData) != null ==> r == old(rlAdditiveData) && flags == old(flags) && Buffers() == old(Buffers())
      ensures old(rlAdditiveData) == null ==>
        fresh(r) && nativeAlphaData != null && r[..] == Rle.ImageCode(NativeCells(), width, height)
      ensures old(rlAdditiveData) == null && old(nativeAlphaData) == null ==>
        NativeCells() == NativeOf(env.display, Contents(env))
      ensures old(rlAdditiveData) == null && old(nativeAlphaData) != null ==>
        flags == old(flags) && Buffers() == old(Buffers()).(rlAdditiveData := r)
      ensures old(rlAdditiveData) == null && old(nativeAlphaData) == null ==>
        fresh(nativeAlphaData) && flags == Commit(old(flags), old(Analysis()).0, old(Analysis()).1) &&
        Buffers() == old(Buffers()).(bits := bits, nativeAlphaData := nativeAlphaData, rlAdditiveData := r) &&
        (old(colorTable) != null ==> bits == old(bits)) &&
        (old(colorTable) == null ==> bits != null && (old(bits) != null ==> bits == old(bits)) && (old(bits) == null ==> fresh(bits)))
    {
      if rlAdditiveData == null {
        ghost var built := nativeAlphaData == null;
        ghost var palette := if colorTable != null then colorTable[..] else [];
        var native := GetNativeAlphaData(env);
        var cells := ReadNativeCells();
        if built && colorTable != null {
          NativeLookup(env.display, palette, colorIndices[..], native[..], cells);
        }
        var table := Rle.EncodeRuns(cells, width, height);
        StoreRLAdditive(table, env);
      }
      r := rlAdditiveData;
    }

    /** Keeps a new additive run-length table; no other buffer changes. */
    method StoreRLAdditive(table: array<Byte>, env: Env)
      requires Valid() && table.Length == Size()
      modifies this
      ensures Valid() && flags == old(flags) && Buffers() == old(Buffers()).(rlAdditiveData := table)
      ensures Contents(env) == old(Contents(env))
      ensures old(nativeAlphaData) != null ==> NativeCells() == old(NativeCells())
    {
      rlAdditiveData := table;
    }

    /** The run-length alpha table, made after committing the alpha flags when it is
        missing; the pixel buffer is made first when there is neither a palette nor a
        native copy to read. */
    method GetRLAlphaData(env: Env) returns (r: array<Byte>)
      requires Valid()
      modifies this
      ensures Valid() && r == rlAlphaData && Contents(env) == old(Contents(env))
      ensures flags == Commit(old(flags), old(Analysis()).0, old(Analysis()).1)
      ensures old(rlAlphaData) != null ==> r == old(rlAlphaData) && Buffers() == old(Buffers())
      ensures old(rlAlphaData) == null ==>
        fresh(r) && (old(bits) != null ==> bits == old(bits)) && Buffers() == old(Buffers()).(bits := bits, rlAlphaData := r)
    {
      CommitBits();
      if rlAlphaData == null {
        rlAlphaData := new Byte[Size()];
        if colorTable == null && nativeAlphaData == null {
          var _ := GetBits(env);
        }
      }
      r := rlAlphaData;
    }

    // -------------------------------------------------------------------------------
    // Fills.

    /** The shape shared by `FillRect` and `ClearRect`: the pixel buffer is made, every
        cell of the rectangle is mapped by `paint`, and the change is recorded. */
    method PaintPixels(r: Rect, paint: Word -> Word, env: Env)
      requires Valid() && Fits(r, width, height)
      modifies this, bits
      ensures Valid() && bits != null && (old(bits) != null ==> bits == old(bits)) && (old(bits) == null ==> fresh(bits))
      ensures Contents(env) == PaintedRect(old(Contents(env)), width, height, r, paint)
      ensures Buffers() == Redrawn(old(Buffers()), bits) && flags == Changed(old(flags))
    {
      var a := GetBits(env);
      ghost var before := a[..];
      PaintRect(a, width, height, r, paint);
      PaintedRectPrefix(before, Size(), width, height, r, paint);
      assert a[Size()] == before[Size()];
      BitsChanged();
    }

    /** Fills the rectangle with a colour: an opaque one is stored, any other composited
        over each pixel.  The blend divides by the new alpha, so a fully transparent
        colour may only be used over pixels that are not fully transparent. */
    method FillRect(r: Rect, c: Color, mode: int, env: Env)
      requires Valid() && Fits(r, width, height)
      requires c.alpha == 0 ==> forall i :: 0 <= i < Size() && InRect(r, width, height, i) ==> AlphaOf(Contents(env)[i]) > 0
      modifies this, bits
      ensures Valid() && bits != null && (old(bits) != null ==> bits == old(bits)) && (old(bits) == null ==> fresh(bits))
      ensures Contents(env) == PaintedRect(old(Contents(env)), width, height, r, FillWith(c))
      ensures Buffers() == Redrawn(old(Buffers()), bits) && flags == Changed(old(flags))
    {
      PaintPixels(r, FillWith(c), env);
    }

    /** Sets every pixel of the rectangle to 0. */
    method ClearRect(r: Rect, env: Env)
      requires Valid() && Fits(r, width, height)
      modifies this, bits
      ensures Valid() && bits != null && (old(bits) != null ==> bits == old(bits)) && (old(bits) == null ==> fresh(bits))
      ensures Contents(env) == PaintedRect(old(Contents(env)), width, height, r, Erase())
      ensures Buffers() == Redrawn(old(Buffers()), bits) && flags == Changed(old(flags))
    {
      PaintPixels(r, Erase(), env);
    }

    /** Sets every pixel to 0.  The source tests the buffer `GetBits` returns against
        null, which it never is. */
    method Clear(env: Env)
      requires Valid()
      modifies this, bits
      ensures Valid() && bits != null && (old(bits) != null ==> bits == old(bits)) && (old(bits) == null ==> fresh(bits))
      ensures Contents(env) == Zeros(Size())
      ensures Buffers() == Redrawn(old(Buffers()), bits) && flags == Changed(old(flags))
    {
      var a := GetBits(env);
      ZeroPixels(a, Size());
      assert a[Size()] == a[Size()..][0];
      BitsChanged();
    }

    /** Blends the colour into the spans of a scan-converted shape, each pixel weighted by
        its coverage byte (see `CoverSpans`). The draw mode and the coverage height are
        not used. */
    method FillScanLinesWithCoverage(spans: seq<Span>, c: Color, mode: int, coverage: seq<Byte>,
                                     coverX: int, coverY: int, coverWidth: int, coverHeight: int, env: Env)
      requires Valid() && SpansFit(spans, width, Size(), |coverage|, coverX, coverY, coverWidth)
      modifies this, bits
      ensures Valid() && bits != null && (old(bits) != null ==> bits == old(bits)) && (old(bits) == null ==> fresh(bits))
      ensures Buffers() == Redrawn(old(Buffers()), bits) && flags == Changed(old(flags))
      ensures Contents(env) ==
        CoverSpans(old(Contents(env)), spans, |spans|, width, coverage, coverX, coverY, coverWidth, c.alpha, Over(ToInt(c)))
    {
      var a := GetBits(env);
      FillSpans(a, Size(), width, spans, coverage, coverX, coverY, coverWidth, c.alpha, Over(ToInt(c)));
      assert a[Size()] == a[Size()..][0];
      BitsChanged();
    }

    // -------------------------------------------------------------------------------
    // Lines, for integer endpoints inside the image.

    /** The shape shared by the two line drawers: the pixel buffer is made and the
        stepper maps every cell of the segment by `plot`. No change is recorded. */
    method TracePixels(s: Line.Segment, plot: Word -> Word, env: Env)
      requires Valid() && InImage(width, height, s.x0, s.y0) && InImage(width, height, s.x1, s.y1)
      modifies this, bits
      ensures Valid() && bits != null && (old(bits) != null ==> bits == old(bits)) && (old(bits) == null ==> fresh(bits))
      ensures Contents(env) == Line.Traced(old(Contents(env)), s, width, height, plot)
      ensures Buffers() == Materialised(old(Buffers()), bits) && flags == old(flags)
    {
      var a := GetBits(env);
      ghost var before := a[..];
      Line.Stepper(a, width, height, s, plot);
      TracedPrefix(before, Size(), s, width, height, plot);
      assert a[Size()] == before[Size()] by {
        if a[Size()] != before[Size()] {
          Line.TracedInBox(before, s, width, height, plot, Size());
        }
      }
    }

    /** The normal line: the rounded colour on every cell when it is opaque, the
        translucent blend otherwise. */
    method NormalDrawLine(s: Line.Segment, c: Color, env: Env)
      requires Valid() && InImage(width, height, s.x0, s.y0) && InImage(width, height, s.x1, s.y1)
      modifies this, bits
      ensures Valid() && bits != null && (old(bits) != null ==> bits == old(bits)) && (old(bits) == null ==> fresh(bits))
      ensures Contents(env) == Line.Traced(old(Contents(env)), s, width, height, NormalPlot(c))
      ensures Buffers() == Materialised(old(Buffers()), bits) && flags == old(flags)
    {
      TracePixels(s, NormalPlot(c), env);
    }

    /** The additive line: the colour added channel by channel through the saturation
        table. */
    method AdditiveDrawLine(s: Line.Segment, c: Color, env: Env)
      requires Valid() && InImage(width, height, s.x0, s.y0) && InImage(width, height, s.x1, s.y1)
      modifies this, bits
      ensures Valid() && bits != null && (old(bits) != null ==> bits == old(bits)) && (old(bits) == null ==> fresh(bits))
      ensures Contents(env) == Line.Traced(old(Contents(env)), s, width, height, AdditivePlot(env.maxTable, c))
      ensures Buffers() == Materialised(old(Buffers()), bits) && flags == old(flags)
    {
      TracePixels(s, AdditivePlot(env.maxTable, c), env);
    }

    /** A horizontal or vertical segment is filled as a one pixel thick rectangle, in
        either draw mode; any other goes to the drawer of its mode, and a mode that is
        neither draws nothing. The change is recorded once in every case. */
    method DrawLine(s: Line.Segment, c: Color, mode: int, env: Env)
      requires Valid() && InImage(width, height, s.x0, s.y0) && InImage(width, height, s.x1, s.y1)
      requires AxisAligned(s) && c.alpha == 0 ==>
        forall i :: 0 <= i < Size() && Line.Painted(s, width, height, i) ==> AlphaOf(Contents(env)[i]) > 0
      modifies this, bits
      ensures Valid() && flags == Changed(old(flags))
      ensures AxisAligned(s) ==> Contents(env) == PaintedRect(old(Contents(env)), width, height, AxisRect(s), FillWith(c))
      ensures !AxisAligned(s) && mode == DrawModeNormal ==>
        Contents(env) == Line.Traced(old(Contents(env)), s, width, height, NormalPlot(c))
      ensures !AxisAligned(s) && mode == DrawModeAdditive ==>
        Contents(env) == Line.Traced(old(Contents(env)), s, width, height, AdditivePlot(env.maxTable, c))
      ensures AxisAligned(s) || mode == DrawModeNormal || mode == DrawModeAdditive ==>
        bits != null && (old(bits) != null ==> bits == old(bits)) && (old(bits) == null ==> fresh(bits)) &&
        Buffers() == Redrawn(old(Buffers()), bits)
      ensures !AxisAligned(s) && mode != DrawModeNormal && mode != DrawModeAdditive ==> Buffers() == Uncached(old(Buffers()))
      ensures !AxisAligned(s) && mode != DrawModeNormal && mode != DrawModeAdditive && old(bits) != null ==>
        Contents(env) == old(Contents(env))
    {
      if AxisAligned(s) {
        AxisRectFits(s, width, height);
        forall i | 0 <= i < Size()
          ensures InRect(AxisRect(s), width, height, i) <==> Line.Painted(s, width, height, i)
        {
          AxisRectIsLine(s, width, height, i);
        }
        FillRect(AxisRect(s), c, mode, env);
        return;
      }
      if mode == DrawModeNormal {
        NormalDrawLine(s, c, env);
      } else if mode == DrawModeAdditive {
        AdditiveDrawLine(s, c, env);
      }
      BitsChanged();
    }

    /** The anti-aliased normal line: the pixel buffer is made and the change recorded;
        the pixels it blends are not part of this model. */
    method NormalDrawLineAA(s: Line.Segment, c: Color, env: Env)
      requires Valid()
      modifies this, bits
      ensures Valid() && bits != null && (old(bits) != null ==> bits == old(bits)) && (old(bits) == null ==> fresh(bits))
      ensures Buffers() == Redrawn(old(Buffers()), bits) && flags == Changed(old(flags))
    {
      Redraw(env);
    }

    /** The buffer work around a pixel loop that is not part of this model: the pixel
        buffer is made with `GetBits` and the change recorded.  The loop's writes are
        left to the caller's frame. */
    method Redraw(env: Env)
      requires Valid()
      modifies this
      ensures Valid() && bits != null && (old(bits) != null ==> bits == old(bits)) && (old(bits) == null ==> fresh(bits))
      ensures Buffers() == Redrawn(old(Buffers()), bits) && flags == Changed(old(flags))
    {
      var _ := GetBits(env);
      BitsChanged();
    }

    /** The anti-aliased dispatcher: axis-aligned segments as in `DrawLine`; the normal
        mode records the change twice (once in `NormalDrawLineAA`), and the additive one,
        whose drawer has an empty body, only once, without touching a pixel. */
    method DrawLineAA(s: Line.Segment, c: Color, mode: int, env: Env)
      requires Valid() && InImage(width, height, s.x0, s.y0) && InImage(width, height, s.x1, s.y1)
      requires AxisAligned(s) && c.alpha == 0 ==>
        forall i :: 0 <= i < Size() && Line.Painted(s, width, height, i) ==> AlphaOf(Contents(env)[i]) > 0
      modifies this, bits
      ensures Valid()
      ensures AxisAligned(s) ==>
        Contents(env) == PaintedRect(old(Contents(env)), width, height, AxisRect(s), FillWith(c)) &&
        bits != null && Buffers() == Redrawn(old(Buffers()), bits) && flags == Changed(old(flags))
      ensures !AxisAligned(s) && mode == DrawModeNormal ==>
        bits != null && Buffers() == Redrawn(old(Buffers()), bits) && flags == Changed(Changed(old(flags)))
      ensures !AxisAligned(s) && mode != DrawModeNormal ==>
        Buffers() == Uncached(old(Buffers())) && flags == Changed(old(flags))
      ensures !AxisAligned(s) && mode != DrawModeNormal && old(bits) != null ==> Contents(env) == old(Contents(env))
    {
      if AxisAligned(s) {
        AxisRectFits(s, width, height);
        forall i | 0 <= i < Size()
          ensures InRect(AxisRect(s), width, height, i) <==> Line.Painted(s, width, height, i)
        {
          AxisRectIsLine(s, width, height, i);
        }
        FillRect(AxisRect(s), c, mode, env);
        return;
      }
      if mode == DrawModeNormal {
        NormalDrawLineAA(s, c, env);
      }
      BitsChanged();
    }

    // -------------------------------------------------------------------------------
    // Drawing another image.  The loops that copy or add the source's pixels are not
    // part of this model: what is modelled is what the blitters do to the two images'
    // flags and buffers around them.

    /** `mDrawn = true`. */
    method MarkDrawn()
      requires Valid()
      modifies this
      ensures Valid() && flags == old(flags).(drawn := true) && Buffers() == old(Buffers())
    {
      flags := flags.(drawn := true);
    }

    /** Used as the source of a blit: marked drawn, and its pixel buffer made unless it
        is a palette image, whose indices are read instead.  The picture stays. */
    method UseAsSource(env: Env)
      requires Valid()
      modifies this
      ensures Valid() && flags == old(flags).(drawn := true)
      ensures Contents(env) == old(Contents(env))
      ensures old(colorTable) != null ==> Buffers() == old(Buffers())
      ensures old(colorTable) == null ==> bits != null && Buffers() == Materialised(old(Buffers()), bits)
      ensures old(bits) == null && bits != null ==> fresh(bits)
    {
      MarkDrawn();
      if colorTable == null {
        var _ := GetBits(env);
      }
    }

    /** What a blit from `src` leaves, given the destination's buffers and flags b0 and f0
        and the source's sb0 and sf0 before it: the source as `UseAsSource` leaves it, the
        destination's pixel buffer made and the change recorded on the destination.  A
        blit of an image onto itself does both to the one image. */
    ghost predicate Blitted(src: MemoryImage, b0: BufferSet, f0: FlagSet, sb0: BufferSet, sf0: FlagSet)
      reads this, src
    {
      bits != null && Buffers() == Redrawn(b0, bits) &&
      if src == this then flags == Changed(f0.(drawn := true))
      else
        flags == Changed(f0) && src.flags == sf0.(drawn := true) &&
        (sb0.colorTable != null ==> src.Buffers() == sb0) &&
        (sb0.colorTable == null ==> src.bits != null && src.Buffers() == Materialised(sb0, src.bits))
    }

    /** `NormalBlt` around its pixel loop.  `src` is null when the source is not a
        `MemoryImage`: then nothing here changes. */
    method NormalBlt(src: MemoryImage?, x: int, y: int, srcRect: Rect, c: Color, env: Env)
      requires Valid() && (src != null ==> src.Valid())
      modifies this, bits, src
      ensures Valid() && (src != null ==> src.Valid())
      ensures src == null ==> Buffers() == old(Buffers()) && flags == old(flags)
      ensures src != null ==> Blitted(src, old(Buffers()), old(flags), old(src.Buffers()), old(src.flags))
      ensures src != null && old(bits) == null ==> fresh(bits)
      ensures src != null && src != this ==> src.Contents(env) == old(src.Contents(env))
    {
      if src != null {
        src.UseAsSource(env);
        Redraw(env);
      }
    }

    /** `AdditiveBlt` around its pixel loop, which adds through the application's
        saturation table; around it, the same as `NormalBlt`. */
    method AdditiveBlt(src: MemoryImage?, x: int, y: int, srcRect: Rect, c: Color, env: Env)
      requires Valid() && (src != null ==> src.Valid())
      modifies this, bits, src
      ensures Valid() && (src != null ==> src.Valid())
      ensures src == null ==> Buffers() == old(Buffers()) && flags == old(flags)
      ensures src != null ==> Blitted(src, old(Buffers()), old(flags), old(src.Buffers()), old(src.flags))
      ensures src != null && old(bits) == null ==> fresh(bits)
      ensures src != null && src != this ==> src.Contents(env) == old(src.Contents(env))
    {
      if src != null {
        src.UseAsSource(env);
        Redraw(env);
      }
    }

    /** The blit dispatcher: the source is marked drawn and the mode picks the blitter;
        an unknown mode does nothing else. */
    method Blt(src: MemoryImage?, x: int, y: int, srcRect: Rect, c: Color, mode: int, env: Env)
      requires Valid() && (src != null ==> src.Valid())
      modifies this, bits, src
      ensures Valid() && (src != null ==> src.Valid())
      ensures src == null ==> Buffers() == old(Buffers()) && flags == old(flags)
      ensures src != null && (mode == DrawModeNormal || mode == DrawModeAdditive) ==>
        Blitted(src, old(Buffers()), old(flags), old(src.Buffers()), old(src.flags))
      ensures src != null && mode != DrawModeNormal && mode != DrawModeAdditive ==>
        src.flags == old(src.flags).(drawn := true) && src.Buffers() == old(src.Buffers()) &&
        (src != this ==> flags == old(flags) && Buffers() == old(Buffers()))
    {
      if src == null {
        return;
      }
      ghost var f0, b0, sf0, sb0 := flags, Buffers(), src.flags, src.Buffers();
      src.MarkDrawn();
      if mode == DrawModeNormal {
        NormalBlt(src, x, y, srcRect, c, env);
        BlittedMarked(src, b0, f0, sb0, sf0);
      } else if mode == DrawModeAdditive {
        AdditiveBlt(src, x, y, srcRect, c, env);
        BlittedMarked(src, b0, f0, sb0, sf0);
      }
    }

    /** Marking the source drawn before the blit makes no difference to its outcome. */
    lemma BlittedMarked(src: MemoryImage, b0: BufferSet, f0: FlagSet, sb0: BufferSet, sf0: FlagSet)
      requires Blitted(src, b0, if src == this then f0.(drawn := true) else f0, sb0, sf0.(drawn := true))
      ensures Blitted(src, b0, f0, sb0, sf0)
    {
    }

    // -------------------------------------------------------------------------------
    // Storage.

    /** Takes a copy of w * h pixels as the picture, unless they are the image's own
        buffer.  The palette goes; a new buffer is made when the size changes.  With the
        size unchanged the source copies into the existing buffer without checking that
        there is one, so that case needs one. */
    method SetBits(theBits: array<Word>, w: nat, h: nat, commitBits: bool)
      requires Valid() && theBits.Length >= w * h
      requires theBits != bits && w == width && h == height ==> bits != null
      modifies this, bits
      ensures Valid()
      ensures theBits == old(bits) ==> Buffers() == old(Buffers()) && flags == old(flags) && bits[..] == old(bits[..])
      ensures theBits != old(bits) ==>
        width == w && height == h && bits != null && bits[..Size()] == old(theBits[..w * h]) &&
        Buffers() == BufferSet(w, h, bits, null, null, null, null, null) &&
        (w == old(width) && h == old(height) ==> bits == old(bits)) &&
        (w != old(width) || h != old(height) ==> fresh(bits))
      ensures theBits != old(bits) ==> flags == if commitBits
        then Commit(Changed(old(flags)), SomeTransparent(old(theBits[..w * h])), SomeTranslucent(old(theBits[..w * h])))
        else Changed(old(flags))
    {
      if theBits != bits {
        colorIndices := null;
        colorTable := null;
        if w != width || h != height {
          bits := new Word[w * h + 1];
          width, height := w, h;
        }
        CopyPixels(bits, theBits, Size());
        bits[Size()] := MemoryCheckId;
        BitsChanged();
        if commitBits {
          CommitBits();
        }
      }
    }

    /** `Create` as the source writes it: the pixel buffer goes and the size changes, but a
        palette stays.  A palette image created at another size is left with an index
        array of the old size, and one created at the same size keeps its old picture
        instead of the zeros the alpha flags are set for. */
    method CreateAsWritten(w: nat, h: nat)
      requires Valid()
      modifies this
      ensures Buffers() == BufferSet(w, h, null, old(colorTable), old(colorIndices), null, null, null)
      ensures flags == Changed(old(flags).(hasTrans := true, hasAlpha := true))
      ensures Valid() <==> old(colorTable) == null || w * h == old(Size())
    {
      bits := null;
      width, height := w, h;
      flags := flags.(hasTrans := true, hasAlpha := true);
      BitsChanged();
    }

    /** An empty w x h image: no buffer, palette or cache, so its picture is zeros unless
        the 3-D backend holds one (the palette is dropped too). */
    method Create(w: nat, h: nat, env: Env)
      requires Valid()
      modifies this
      ensures Valid() && Buffers() == BufferSet(w, h, null, null, null, null, null, null)
      ensures flags == Changed(old(flags).(hasTrans := true, hasAlpha := true))
      ensures !flags.hasD3DData ==> Contents(env) == Zeros(w * h)
    {
      bits := null;
      colorIndices := null;
      colorTable := null;
      width, height := w, h;
      flags := flags.(hasTrans := true, hasAlpha := true);
      BitsChanged();
    }

    /** Replaces the pixels by a palette when the quantiser finds one; a palette image
        stays as it is.  On success the pixel buffer and the native copy go, but the two
        run-length tables built from the old pixels stay. */
    method Palletize(env: Env) returns (ok: bool)
      requires Valid()
      modifies this
      ensures Valid()
      ensures Palletized(env, old(Buffers()), old(flags), old(Contents(env)), old(Analysis()), ok, Buffers(), flags, Contents(env))
      ensures old(colorTable) == null && ok ==> fresh(colorTable) && fresh(colorIndices)
    {
      CommitBits();
      if colorTable != null {
        return true;
      }
      ok := Quantize(env);
    }

    /** The part of `Palletize` after the palette check: the pixels are made and handed to
        the quantiser. */
    method Quantize(env: Env) returns (ok: bool)
      requires Valid() && colorTable == null
      modifies this
      ensures Valid() && width == old(width) && height == old(height)
      ensures ok <==> env.quantize(old(Contents(env)), width, height).Some?
      ensures !ok ==>
        bits != null && Contents(env) == old(Contents(env)) && (old(bits) != null ==> bits == old(bits)) &&
        Buffers() == old(Buffers()).(bits := bits) && flags == old(flags).(wantPal := false)
      ensures ok ==>
        var p := env.quantize(old(Contents(env)), width, height).value;
        fresh(colorTable) && fresh(colorIndices) &&
        colorTable[..] == seq(256, i => p.entry(i)) && colorIndices[..] == seq(Size(), i => p.index(i)) &&
        Buffers() == old(Buffers()).(bits := null, colorTable := colorTable, colorIndices := colorIndices, nativeAlphaData := null) &&
        flags == old(flags).(wantPal := true)
    {
      var a := GetBits(env);
      // the source gives up here when there is no pixel buffer, which `GetBits` always makes
      var q := env.quantize(a[..Size()], width, height);
      if q.None? {
        flags := flags.(wantPal := false);
        return false;
      }
      var p := q.value;
      colorIndices := IndexArray(p, Size());
      colorTable := TableArray(p);
      bits := null;
      nativeAlphaData := null;
      flags := flags.(wantPal := true);
      ok := true;
    }

    /** `Proceeds` on the current buffers and flags. */
    predicate PurgeProceeds(env: Env)
      reads this
    {
      Proceeds(env, Buffers(), flags)
    }

    /** `PurgeBits` as the source writes it.  With 3-D data the palette is dropped but the
        native copy is kept, and the native copy of a palette image is a 256-entry native
        palette: afterwards it is read as one native pixel per cell, so for any size but
        256 the caches no longer fit the image. */
    method PurgeBitsAsWritten(env: Env)
      requires Valid() && ValidDisplay(env.display)
      modifies this
      ensures Core() && width == old(width) && height == old(height)
      ensures flags.purgeBits && flags.hasD3DData == old(flags.hasD3DData)
      ensures old(PurgeProceeds(env)) ==> bits == null
      ensures old(PurgeProceeds(env)) && flags.hasD3DData ==> colorTable == null && colorIndices == null
      ensures env.accelerated ==> nativeAlphaData == old(nativeAlphaData)
      ensures old(colorTable) == null || !flags.hasD3DData ==> CachesFit()
      ensures (old(PurgeProceeds(env)) && flags.hasD3DData && old(colorTable) != null && old(Size()) != 256 &&
               (!env.accelerated || old(nativeAlphaData) != null)) ==> !CachesFit()
    {
      flags := flags.(purgeBits := true);
      if env.accelerated {
        if !flags.hasD3DData {
          return;
        }
      } else {
        if bits == null && colorIndices == null {
          return;
        }
        var _ := GetNativeAlphaData(env);
      }
      ReleaseAsWritten();
    }

    /** The pointers `PurgeBits` clears: the pixel buffer, and with 3-D data the palette
        but not its native copy. */
    method ReleaseAsWritten()
      modifies this
      ensures flags == old(flags) && bits == null
      ensures Buffers() == if flags.hasD3DData then old(Buffers()).(bits := null, colorTable := null, colorIndices := null)
                           else old(Buffers()).(bits := null)
    {
      bits := null;
      if flags.hasD3DData {
        colorIndices := null;
        colorTable := null;
      }
    }

    /** Drops the pixel buffer once the picture is held elsewhere: without 3-D
        acceleration the native copy is made first; with 3-D data the palette goes too,
        and with it the native palette. */
    method PurgeBits(env: Env)
      requires Valid() && ValidDisplay(env.display)
      modifies this
      ensures Valid()
      ensures Purged(env, old(Buffers()), old(flags), old(Contents(env)), old(Analysis()), Buffers(), flags, Contents(env))
      ensures old(nativeAlphaData) == null && nativeAlphaData != null ==> fresh(nativeAlphaData)
    {
      MarkPurge(env);
      if env.accelerated {
        if flags.hasD3DData {
          DropBits();
        }
      } else if bits != null || colorIndices != null {
        PurgeSoftware(env);
      }
    }

    /** Sets `purgeBits`; nothing else changes. */
    method MarkPurge(env: Env)
      requires Valid()
      modifies this
      ensures Valid() && flags == old(flags).(purgeBits := true) && Buffers() == old(Buffers())
      ensures Contents(env) == old(Contents(env)) && Analysis() == old(Analysis())
    {
      flags := flags.(purgeBits := true);
    }

    /** The purge without 3-D acceleration: the native copy is made, then the pixel
        buffer dropped. */
    method PurgeSoftware(env: Env)
      requires Valid() && ValidDisplay(env.display)
      modifies this
      ensures Valid()
      ensures flags == if old(nativeAlphaData) == null then Commit(old(flags), old(Analysis()).0, old(Analysis()).1) else old(flags)
      ensures SoftwarePurged(env, old(Buffers()), old(flags.hasD3DData), old(Contents(env)), Buffers(), Contents(env))
      ensures old(nativeAlphaData) == null && nativeAlphaData != null ==> fresh(nativeAlphaData)
    {
      ghost var b0, c0 := Buffers(), Contents(env);
      var native := GetNativeAlphaData(env);
      DropBits();
      PurgedBySoftware(env, b0, flags.hasD3DData, c0, native, Buffers(), Contents(env));
    }

    /** The end of `PurgeBits`. */
    method DropBits()
      requires Valid()
      modifies this
      ensures Valid() && flags == old(flags) && bits == null && Buffers() == Dropped(old(Buffers()), flags.hasD3DData)
    {
      bits := null;
      if flags.hasD3DData {
        if colorTable != null {
          nativeAlphaData := null;
        }
        colorIndices := null;
        colorTable := null;
      }
    }

    /** Restores the forms the image was asked for: the palette when one is wanted, then
        the purge when one was asked for.  The ghost results name the state between the
        two steps: `palettized` is what `Palletize` returned, and `mid`, `midFlags`,
        `midPicture` and `midAnalysis` are the buffers, flags, picture and alpha analysis
        it left.  After `Palletize` the flags are committed, so the analysis the purge
        would commit changes nothing. */
    method ReInit(env: Env) returns (ghost palettized: bool, ghost mid: BufferSet, ghost midFlags: FlagSet,
                                     ghost midPicture: seq<Word>, ghost midAnalysis: (bool, bool))
      requires Valid() && ValidDisplay(env.display)
      modifies this
      ensures Valid()
      ensures !old(flags.wantPal) ==>
        mid == old(Buffers()) && midFlags == old(flags) && midPicture == old(Contents(env)) && midAnalysis == old(Analysis())
      ensures old(flags.wantPal) ==>
        Palletized(env, old(Buffers()), old(flags), old(Contents(env)), old(Analysis()), palettized, mid, midFlags, midPicture) &&
        (midFlags.forcedMode || !midFlags.bitsChanged)
      ensures old(flags.wantPal) && old(colorTable) == null && palettized ==> fresh(mid.colorTable) && fresh(mid.colorIndices)
      ensures !old(flags.purgeBits) ==> Buffers() == mid && flags == midFlags && Contents(env) == midPicture
      ensures old(flags.purgeBits) ==> Purged(env, mid, midFlags, midPicture, midAnalysis, Buffers(), flags, Contents(env))
      ensures old(flags.purgeBits) && nativeAlphaData != null && nativeAlphaData != mid.nativeAlphaData ==> fresh(nativeAlphaData)
    {
      palettized := PaletteIfWanted(env);
      mid, midFlags, midPicture, midAnalysis := Buffers(), flags, Contents(env), Analysis();
      if flags.purgeBits {
        PurgeBits(env);
      }
    }

    /** The first step of `ReInit`: `Palletize` when a palette is wanted. */
    method PaletteIfWanted(env: Env) returns (ghost ok: bool)
      requires Valid()
      modifies this
      ensures Valid() && flags.purgeBits == old(flags.purgeBits)
      ensures !old(flags.wantPal) ==> Buffers() == old(Buffers()) && flags == old(flags)
      ensures old(flags.wantPal) ==>
        Palletized(env, old(Buffers()), old(flags), old(Contents(env)), old(Analysis()), ok, Buffers(), flags, Contents(env)) &&
        (flags.forcedMode || !flags.bitsChanged)
      ensures old(flags.wantPal) && old(colorTable) == null && ok ==> fresh(colorTable) && fresh(colorIndices)
    {
      ok := true;
      if flags.wantPal {
        ok := Palletize(env);
      }
    }

    /** Drops the three caches, making the pixel buffer first when there is neither a
        buffer nor a palette, so that the picture survives. */
    method DeleteSWBuffers(env: Env)
      requires Valid()
      modifies this
      ensures Valid() && Contents(env) == old(Contents(env)) && flags == old(flags)
      ensures bits != null || colorTable != null
      ensures old(bits) != null || old(colorIndices) != null ==> Buffers() == Uncached(old(Buffers()))
      ensures old(bits) == null && old(colorIndices) == null ==> fresh(bits) && Buffers() == Uncached(old(Buffers())).(bits := bits)
    {
      if bits == null && colorIndices == null {
        var _ := GetBits(env);
      }
      nativeAlphaData := null;
      rlAdditiveData := null;
      rlAlphaData := null;
    }

    /** Drops the native copy and the additive run-length table, keeping the picture as in
        `DeleteSWBuffers`. */
    method DeleteNativeData(env: Env)
      requires Valid()
      modifies this
      ensures Valid() && Contents(env) == old(Contents(env)) && flags == old(flags)
      ensures bits != null || colorTable != null
      ensures old(bits) != null || old(colorIndices) != null ==>
        Buffers() == old(Buffers()).(nativeAlphaData := null, rlAdditiveData := null)
      ensures old(bits) == null && old(colorIndices) == null ==>
        fresh(bits) && Buffers() == old(Buffers()).(bits := bits, nativeAlphaData := null, rlAdditiveData := null)
    {
      if bits == null && colorIndices == null {
        var _ := GetBits(env);
      }
      nativeAlphaData := null;
      rlAdditiveData := null;
    }
  }
  // ---------------------------------------------------------------------------------
  // The two places where the source does not do what the rest of it relies on.

  /** A 1 x 1 palette image, everything else empty. */
  method PaletteImage() returns (img: MemoryImage)
    ensures fresh(img) && fresh(img.colorTable) && fresh(img.colorIndices)
    ensures img.Valid() && img.Size() == 1 && img.bits == null && img.colorTable != null
    ensures img.nativeAlphaData == null && img.rlAlphaData == null && img.rlAdditiveData == null
    ensures !img.flags.hasD3DData
  {
    img := new MemoryImage();
    img.width, img.height := 1, 1;
    img.colorTable := new Word[256](i => 0);
    img.colorIndices := new Byte[1](i => 0);
  }

  /** `CreateAsWritten` on a 1 x 1 palette image with size 2 x 1 leaves a one-byte index
      array for a two-pixel image. */
  method CreateKeepsPalette() returns (img: MemoryImage)
    ensures img.Size() == 2 && img.colorTable != null && img.colorIndices != null && img.colorIndices.Length == 1
    ensures !img.Valid()
  {
    img := PaletteImage();
    img.CreateAsWritten(2, 1);
  }

  /** `PurgeBitsAsWritten`, with 3-D acceleration, on a 1 x 1 palette image that has its
      native palette and 3-D data: the palette goes, the 256-entry native palette stays
      and is then taken for the 1-pixel native copy. */
  method PurgeKeepsNativePalette() returns (img: MemoryImage)
    ensures img.Size() == 1 && img.colorTable == null && img.nativeAlphaData != null
    ensures img.nativeAlphaData.Length == 256 && !img.CachesFit()
  {
    img := PaletteImage();
    img.nativeAlphaData := new Word[256](i => 0);
    img.flags := img.flags.(hasD3DData := true);
    var table: MaxTable := seq(512, i => 0);
    var env := Env(Display888, true, None, table, (s: seq<Word>, w: nat, h: nat) => None);
    img.PurgeBitsAsWritten(env);
  }
}

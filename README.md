# PopLib `MemoryImage` and smart pointers, modelled in Dafny

This project models two parts of PopLib.

**`MemoryImage`** (`PopLib/graphics/memoryimage.cpp`) is a software image of 32-bit ARGB
pixels. Its picture is held in one of three forms:

- dense pixels `mBits`, with the guard word `MEMORYCHECK_ID` after the last one;
- a 256-entry palette `mColorTable`, with one index byte per pixel in `mColorIndices`;
- only the premultiplied copy in the display's native layout, `mNativeAlphaData`.

Three caches are derived from the picture on demand: the native copy and the two
run-length tables `mRLAlphaData` and `mRLAdditiveData`. `BitsChanged` drops all three
whenever the pixels change. `CommitBits` recomputes the alpha flags lazily.

The model is the class `Image.MemoryImage`. Its fields are the buffers (Dafny arrays),
the size and a `FlagSet` holding the flags and the change counter. `Contents(env)` is the
picture that `GetBits` would return, whatever form it is held in. Every drawing and storage
operation is stated as what it does to `Contents`, to the buffers (`Buffers()`, compared
with `BufferSet` functions such as `Materialised`, `Uncached`, `Redrawn` and `Dropped`) and
to the flags. The pixel arithmetic is in modules of its own:

| module | contents |
|---|---|
| `Bits` | `&`, `\|`, `<<` and `>>` on unsigned values |
| `Pixel` | channel packing |
| `Blend` | `FillRect`'s compositing |
| `Native` | premultiplication and the native layout |
| `LinePixel` | the line colours |
| `Rle` | the additive run-length table |

The loops are in modules of their own too: `Paint` (rectangles), `Line` (the line
stepper) and `Coverage` (the coverage fill). Each loop is a method proved against a
function on sequences. `Draw` ties those functions to the image operations.

**`RefCount`, `ConstSmartPtr` and `SmartPtr`** (`PopLib/misc/smartptr.hpp`) are an
intrusive reference count and the pointers that take and give back references. Module
`SmartPointers` models them:

- the count is a field;
- `delete this` is the ghost flag `deleted`;
- pointer comparison goes through an address function, with null at address 0.

Collaborators outside the image are the parameter `env` (`Image.Env`):

- the display's channel layout;
- `Is3DAccelerated`;
- the outcome of `RecoverBits`;
- the application's 512-entry `mAdd8BitMaxTable`;
- the quantiser `Quantize8Bit`, as a function that returns a palette or fails.

Whether the 3-D backend holds data for the image (`mD3DData != nullptr`) is the flag
`hasD3DData`.

Some constants are defined in headers that are not part of this model, so their values are
taken as follows:

- `memoryimage.hpp` is not part of this model. `MEMORYCHECK_ID` is taken as `0x4BEEFADE`.
- `Graphics::DRAWMODE_NORMAL` and `DRAWMODE_ADDITIVE` are taken as 0 and 1.
- `Color::ToInt` is taken as the usual ARGB packing.
- `ulong` is taken as a 32-bit word in the pixel code; `GetRefCount` alone wraps at 2^64 (see "Left out").

Lines are modelled for integer endpoints inside the image. With integer endpoints the
error terms the source adjusts by fractional parts are exact. All six copies of the
stepping loop then differ only in the pixel they write, so one stepper (`Line.Stepper`)
is modelled, parameterised by that pixel function.

The additive run-length table does not hold run lengths that add up to the row width.
It holds, for every pixel, a countdown: the number of pixels from that one to the
end of its run of equal class, capped at 255. A run of two coloured pixels is coded 2, 1.
`Rle.CodeSumExceedsWidth` exhibits this; `Rle.CodeIsRun` states what a byte does mean.

## Model

| member | source | states |
|---|---|---|
| Image.MemoryImage.constructor | PopLib/graphics/memoryimage.cpp:132-155 | `Init`: no buffers, no cache, every flag false, count 0; the image is well formed |
| Image.MemoryImage.BitsChanged | PopLib/graphics/memoryimage.cpp:157-170 | sets `bitsChanged`, adds exactly 1 to the change counter, drops the three caches and changes nothing else |
| Image.MemoryImage.SetImageMode | PopLib/graphics/memoryimage.cpp:839-844 | forces the mode and sets the two alpha flags to the arguments; no buffer changes |
| Image.MemoryImage.SetVolatile | PopLib/graphics/memoryimage.cpp:846-849 | sets only the volatile flag |
| Image.Commit | PopLib/graphics/memoryimage.cpp:787-833 | the analysis is taken only when the pixels changed and the mode is not forced; then `bitsChanged` is cleared; a forced or unchanged image keeps its flags |
| Image.CommitIdempotent | PopLib/graphics/memoryimage.cpp:787-833 | a second `CommitBits` changes nothing, whatever it would find |
| Image.ScanAlpha | PopLib/graphics/memoryimage.cpp:798-806 | the loop finds "transparent" exactly when some pixel has alpha 0, and "translucent" exactly when some alpha is in 1..254 |
| Image.MemoryImage.CommitBits | PopLib/graphics/memoryimage.cpp:782-837 | the flags become `Commit` of the analysis: over the pixels when dense, else over the 256 palette entries, else transparent and not translucent; the buffers are unchanged |
| Image.ExpandPalette | PopLib/graphics/memoryimage.cpp:1206-1212 | a new array of w*h+1 words: `bits[i] == table[indices[i]]` for every pixel, and the guard word at index w*h |
| Image.UnpremultiplyAll | PopLib/graphics/memoryimage.cpp:1223-1251 | a new array of w*h+1 words: every native pixel converted back to ARGB, and the guard word last |
| Image.NewPixels | PopLib/graphics/memoryimage.cpp:1252-1255 | a new array of w*h+1 words holding the given pixels (zeros, or what the backend recovers), and the guard word last |
| Image.MemoryImage.GetBits | PopLib/graphics/memoryimage.cpp:1200-1259 | the returned buffer is the picture. An existing buffer is returned unchanged. After expanding a palette, the table, the indices and the native copy are gone. With no form and no backend data, every pixel is 0 |
| Image.ToNative | PopLib/graphics/memoryimage.cpp:870-917 | a new array whose entry i is the native premultiplied pixel of source entry i, for the w*h pixels or the 256 palette entries |
| Image.NativeLookup | PopLib/graphics/memoryimage.cpp:1021-1045 | looking indices up in the native palette gives the native copy of the expanded picture |
| Image.MemoryImage.GetNativeAlphaData | PopLib/graphics/memoryimage.cpp:851-920 | an existing copy is returned as is. Otherwise the flags are committed. A palette image's copy is `NativeOf` its 256 palette entries and any other image's is `NativeOf` its w*h pixels. The picture is unchanged |
| Image.MemoryImage.GetRLAdditiveData | PopLib/graphics/memoryimage.cpp:960-1077 | an existing table is returned and nothing changes. Otherwise the table is `Rle.ImageCode` of the native copy, one native value per pixel, and it is the only new buffer when that copy existed. When the copy is built here, it is the native copy of the picture, the flags are committed, and the pixel buffer is made as `GetNativeAlphaData` makes it. The picture is unchanged |
| Image.MemoryImage.GetRLAlphaData | PopLib/graphics/memoryimage.cpp:922-958 | commits the flags; a missing table is allocated with w*h bytes, and the pixel buffer is made only when there is neither a palette nor a native copy |
| Rle.Colored | PopLib/graphics/memoryimage.cpp:984-990 | a pixel is coloured when `(native & 0xFFFFFF) != 0` |
| Rle.RunLength | PopLib/graphics/memoryimage.cpp:986-1015 | the run length from pixel j to the end of its same-class run lies between 1 and the pixels left in the row |
| Rle.RunCode | PopLib/graphics/memoryimage.cpp:992-1003 | a maximal run of len pixels is coded len, len-1, ..., 1, each capped at 255 |
| Rle.RowEndsWithOne | PopLib/graphics/memoryimage.cpp:1005-1006 | a row's last byte is 1 |
| Rle.CodeBounds | PopLib/graphics/memoryimage.cpp:997-1003 | every byte is in 1..255 and never reaches past the end of its row |
| Rle.CodeIsRun | PopLib/graphics/memoryimage.cpp:979-1016 | reading byte n at j, pixels j..j+n-1 have the class of pixel j, and when n < 255 the run really ends there |
| Rle.RunIsMaximal | PopLib/graphics/memoryimage.cpp:986-1015 | `RunLength` pixels share the class of pixel j and the next one, if any, does not |
| Rle.CodeSumExceedsWidth | PopLib/graphics/memoryimage.cpp:997-1003 | two coloured pixels are coded 2, 1, so a row's bytes do not add up to its width |
| Rle.WidthOneCode | PopLib/graphics/memoryimage.cpp:973-976 | with width 1 every byte is 1 |
| Rle.ImageCodeRows | PopLib/graphics/memoryimage.cpp:968-979 | the table has w*h bytes, and bytes width*row .. width*row+width-1 are the code of that row alone |
| Rle.EmitRun | PopLib/graphics/memoryimage.cpp:997-1003 | the countdown loop writes n, n-1, ..., 1, capped at 255, and touches nothing else |
| Rle.EncodeRow | PopLib/graphics/memoryimage.cpp:981-1015 | one row's loop writes exactly that row's `RowCode` at the row's position and nothing else |
| Rle.EncodeRuns | PopLib/graphics/memoryimage.cpp:968-1016 | the whole table is `ImageCode` of the pixels, including the width-1 `memset` |
| Blend.NewDestAlpha | PopLib/graphics/memoryimage.cpp:1290 | the new alpha lies between the larger of the two alphas and 255; it is 0 only when both are, and 255 exactly when one of them is |
| Blend.NewDestAlphaRange | PopLib/graphics/memoryimage.cpp:1290 | the increment `(255 - d) * s / 255` is at most 255 - d, at least s - d when s > d, and equals 255 - d exactly when d or s is 255 |
| Blend.SourceWeight | PopLib/graphics/memoryimage.cpp:1292 | the weight `255 * a / newAlpha` is at least a, and 255 exactly when a is the new alpha |
| Blend.Mix | PopLib/graphics/memoryimage.cpp:1304-1305 | a channel mix lies between the two channels |
| Blend.SplitMix | PopLib/graphics/memoryimage.cpp:1303 | the blue channel, floored term by term, is the joint mix or one below it |
| Blend.FillExprIsFillPixel | PopLib/graphics/memoryimage.cpp:1287-1305 | the mask-and-shift expression `FillRect` writes is `FillPixel` |
| Blend.FillPixelChannels | PopLib/graphics/memoryimage.cpp:1287-1305 | the written pixel takes the new alpha, and each channel is the mix of the destination's and the colour's at the source weight |
| Blend.FillTransparentKeeps | PopLib/graphics/memoryimage.cpp:1287-1305 | a colour of alpha 0 leaves a pixel with some alpha as it was |
| Blend.SplitMixBelowMix | PopLib/graphics/memoryimage.cpp:1303 | a colour blended into itself at weight 170 loses one unit of blue |
| Blend.CoverAlpha | PopLib/graphics/memoryimage.cpp:1827-1828 | the scaled alpha never exceeds the colour's alpha, and full coverage keeps it |
| Blend.CoverAlphaVanishes | PopLib/graphics/memoryimage.cpp:1827-1832 | the scaled alpha is 0 exactly when `(cover + 1) * alpha < 256` |
| Blend.CoverExprIsCoverPixel | PopLib/graphics/memoryimage.cpp:1834-1842 | the expression the coverage fill writes computes `CoverPixel` |
| Native.PremulChannel | PopLib/graphics/memoryimage.cpp:884-886 | `(c * (a + 1)) >> 8` is at most c and at most a, and is c at alpha 255 |
| Native.ChannelRoundTrip | PopLib/graphics/memoryimage.cpp:884-886 | dividing a premultiplied channel again never gives back more than the channel, and gives it back exactly at alpha 255 |
| Native.RoundTripDarkens | PopLib/graphics/memoryimage.cpp:1245-1249 | the native copy turned back into ARGB keeps alpha and never brightens a channel |
| Native.RoundTripOpaque | PopLib/graphics/memoryimage.cpp:1245-1249 | for an opaque pixel the round trip is exact |
| Native.RoundTripLoses | PopLib/graphics/memoryimage.cpp:1245-1249 | at alpha 127 a channel of 255 comes back as 254 |
| Native.NativePixelAlpha | PopLib/graphics/memoryimage.cpp:888-890 | on a display whose channels lie below the alpha byte, the native pixel keeps the alpha of its source |
| Native.NativePixel888 | PopLib/graphics/memoryimage.cpp:858-890 | on the 32-bit display the native pixel is the premultiplied pixel |
| Native.ArgbPixel888 | PopLib/graphics/memoryimage.cpp:1227-1249 | on the 32-bit display `GetBits` divides every channel by alpha again |
| LinePixel.Scale | PopLib/graphics/memoryimage.cpp:193-195 | a channel of the opaque line colour is the channel itself below 128 and one less from 128 up, so 255 becomes 254 |
| LinePixel.OpaqueLineColorClose | PopLib/graphics/memoryimage.cpp:193-195 | the opaque line colour is opaque and within one of the colour in every channel |
| LinePixel.ChannelSum | PopLib/graphics/memoryimage.cpp:320-324 | a translucent line's colour part and destination part add up to at most 255, so no channel carries |
| LinePixel.LineBlendExprIs | PopLib/graphics/memoryimage.cpp:320-324 | the translucent drawers' 32-bit sum is the channel-by-channel `LineBlend` |
| LinePixel.LineBlendTransparent | PopLib/graphics/memoryimage.cpp:320-324 | a line of alpha 0 keeps every covered pixel's colour but makes it opaque |
| LinePixel.AddAmount | PopLib/graphics/memoryimage.cpp:459-627 | the amount an additive line adds to a channel is at most the channel and at most the alpha, and is the channel at alpha 255 |
| LinePixel.AdditiveExprIs | PopLib/graphics/memoryimage.cpp:459-627 | the additive drawers' expression is `AdditivePixel`: each channel looked up in the table, alpha 255 |
| LinePixel.AdditiveSaturates | PopLib/graphics/memoryimage.cpp:459-627 | with a saturating table an additive line adds the amount to each channel and stops at 255 |
| Line.Oriented | PopLib/graphics/memoryimage.cpp:208-227 | the endpoint swap leaves the segment or its reverse, with the major coordinate non-decreasing |
| Line.NearestBounds | PopLib/graphics/memoryimage.cpp:236-254 | the minor offset Nearest(j) lies within half a pixel of the exact line m*j/d |
| Line.NearestStep | PopLib/graphics/memoryimage.cpp:244-254 | one step of the error term G moves the minor coordinate exactly when G > 0 |
| Line.NearestLast | PopLib/graphics/memoryimage.cpp:242-260 | the end point lies exactly on the stepped line |
| Line.NearestRange | PopLib/graphics/memoryimage.cpp:242-260 | over the segment the minor offset stays between 0 and the minor extent |
| Line.LineEndpoints | PopLib/graphics/memoryimage.cpp:229-260 | both endpoints are painted |
| Line.LineInBox | PopLib/graphics/memoryimage.cpp:242-251 | every cell the stepper paints lies in the bounding box of the endpoints |
| Line.LineInImage | PopLib/graphics/memoryimage.cpp:242-251 | so each cell of a segment with both ends in the image lies in the image |
| Line.LineReversible | PopLib/graphics/memoryimage.cpp:211-221 | a segment drawn backwards paints the same cells |
| Line.RowIsNearest | PopLib/graphics/memoryimage.cpp:236-260 | on a mostly horizontal segment the painted row is within half a pixel of the exact line |
| Line.ColumnIsNearest | PopLib/graphics/memoryimage.cpp:290-315 | the same for the painted column of a mostly vertical segment |
| Line.ColumnIteration | PopLib/graphics/memoryimage.cpp:242-260 | one pass of the column loop reaches the segment's cell of its column, inside the bounding box, so the early exit never fires |
| Line.StepColumns | PopLib/graphics/memoryimage.cpp:229-260 | the mostly horizontal loop maps every cell of the segment by the pixel function and keeps every other entry |
| Line.StepRows | PopLib/graphics/memoryimage.cpp:283-315 | the mostly vertical loop does the same |
| Line.Stepper | PopLib/graphics/memoryimage.cpp:197-316 | the buffer becomes `Traced` of the old buffer |
| Line.TracedInBox | PopLib/graphics/memoryimage.cpp:242-251 | every entry the stepper changes is a cell of the segment in its bounding box |
| Line.TracedEndpoints | PopLib/graphics/memoryimage.cpp:229-230 | both endpoints are written |
| Paint.PaintedRectCells | PopLib/graphics/memoryimage.cpp:1271-1277 | every cell of a rectangle inside the image is written, and entries past the pixels keep their values |
| Paint.PaintRect | PopLib/graphics/memoryimage.cpp:1271-1308 | the rectangle loops map every cell of the rectangle by the pixel function and keep every other entry |
| Coverage.Advance | PopLib/graphics/memoryimage.cpp:1825-1844 | the write position moves by at most the number of coverage values read |
| Coverage.CoverRunFrame | PopLib/graphics/memoryimage.cpp:1825-1844 | a span writes only within the pixels its write position passes |
| Coverage.FullAdvance | PopLib/graphics/memoryimage.cpp:1825-1844 | when every coverage value leaves some alpha the write position keeps pace with the coverage position |
| Coverage.CoverRunFull | PopLib/graphics/memoryimage.cpp:1825-1844 | in that case pixel start+j is blended once, with coverage value j |
| Coverage.CoverRunLags | PopLib/graphics/memoryimage.cpp:1827-1843 | over coverage 0, 255 the second value is blended into the first pixel and the second pixel is left as it was: the write position lags |
| Coverage.FillSpan | PopLib/graphics/memoryimage.cpp:1825-1844 | one span's loop computes `CoverRun` and touches nothing past the pixels |
| Coverage.FillSpans | PopLib/graphics/memoryimage.cpp:1817-1845 | the loop over the spans computes `CoverSpans` |
| Draw.FillAlpha | PopLib/graphics/memoryimage.cpp:1267-1305 | `FillRect`'s pixel keeps an alpha at least each of the two, 255 exactly when one of them is |
| Draw.FillOpaque | PopLib/graphics/memoryimage.cpp:1269-1277 | an opaque colour replaces every cell of the rectangle by the colour itself |
| Draw.FillOpaqueTwice | PopLib/graphics/memoryimage.cpp:1269-1277 | filling twice with an opaque colour is filling once |
| Draw.FillTransparent | PopLib/graphics/memoryimage.cpp:1279-1309 | a colour of alpha 0 leaves every pixel that has some alpha as it was |
| Draw.ClearWhole | PopLib/graphics/memoryimage.cpp:1314-1339 | clearing the rectangle of the whole image gives all zeros, as `Clear` does |
| Draw.NormalPlotOpaque | PopLib/graphics/memoryimage.cpp:193-324 | every pixel a normal line writes is opaque |
| Draw.AdditivePlotOpaque | PopLib/graphics/memoryimage.cpp:459-627 | every pixel an additive line writes is opaque, whatever the table holds |
| Draw.NormalLineOpaque | PopLib/graphics/memoryimage.cpp:172-457 | after a normal line every pixel is as it was or opaque |
| Draw.AdditiveLineOpaque | PopLib/graphics/memoryimage.cpp:459-627 | after an additive line every pixel is as it was or opaque |
| Draw.AxisRectFits | PopLib/graphics/memoryimage.cpp:631-648 | the one-pixel-thick rectangle of an axis-aligned segment lies in the image |
| Draw.AxisRectIsLine | PopLib/graphics/memoryimage.cpp:631-648 | that rectangle holds exactly the cells the stepper would paint |
| Image.MemoryImage.PaintPixels | PopLib/graphics/memoryimage.cpp:1261-1312 | the rectangle loops of the fills, on the pixel buffer `GetBits` makes: the picture becomes `PaintedRect` of the old one with the pixel function, and the change is recorded once |
| Image.MemoryImage.FillRect | PopLib/graphics/memoryimage.cpp:1261-1312 | the picture becomes the rectangle filled with `FillWith(c)`. The pixel buffer is made, and the change is recorded once. Alpha 0 is allowed only over pixels that have some alpha |
| Image.MemoryImage.ClearRect | PopLib/graphics/memoryimage.cpp:1314-1327 | every pixel of the rectangle becomes 0 and every other keeps its value; the change is recorded |
| Image.ZeroPixels | PopLib/graphics/memoryimage.cpp:1333-1336 | the loop that zeroes the first n pixels leaves those n as zeros and every later entry as it was |
| Image.MemoryImage.Clear | PopLib/graphics/memoryimage.cpp:1329-1339 | the picture becomes w*h zeros; the change is recorded |
| Image.MemoryImage.FillScanLinesWithCoverage | PopLib/graphics/memoryimage.cpp:1811-1847 | the picture becomes `CoverSpans` of the old one with the colour's blend; the change is recorded |
| Image.MemoryImage.TracePixels | PopLib/graphics/memoryimage.cpp:172-457 | the stepping loop on the pixel buffer `GetBits` makes: the picture becomes `Line.Traced` of the old one with the pixel function; no change is recorded |
| Image.MemoryImage.NormalDrawLine | PopLib/graphics/memoryimage.cpp:172-457 | the picture becomes `Traced` with the normal line pixel: the rounded colour when opaque, the blend otherwise. No change is recorded here |
| Image.MemoryImage.AdditiveDrawLine | PopLib/graphics/memoryimage.cpp:459-627 | the picture becomes `Traced` with the additive pixel through the application's table |
| Image.MemoryImage.DrawLine | PopLib/graphics/memoryimage.cpp:629-660 | an axis-aligned segment is `FillRect` of its rectangle in either mode. Otherwise the drawer of the mode runs. An unknown mode writes nothing: only the caches go, so with a pixel buffer the picture is unchanged. In every case the change is recorded exactly once |
| Image.MemoryImage.NormalDrawLineAA | PopLib/graphics/memoryimage.cpp:662-742 | the pixel buffer is made and the change recorded; the pixels are within its frame and are not stated |
| Image.MemoryImage.Redraw | PopLib/graphics/memoryimage.cpp:665-741 | the buffer work around an unmodelled pixel loop: the pixel buffer is made (`Redrawn`) and the change recorded once |
| Image.MemoryImage.DrawLineAA | PopLib/graphics/memoryimage.cpp:744-780 | axis-aligned segments are filled as in `DrawLine`. The normal mode records the change twice. The additive mode, whose drawer is empty, writes no pixel and records it once. The picture stays when it already had a buffer |
| Image.MemoryImage.MarkDrawn | PopLib/graphics/memoryimage.cpp:1427 | the source image is marked drawn; nothing else changes |
| Image.MemoryImage.UseAsSource | PopLib/graphics/memoryimage.cpp:1383-1392 | the source of a blit is marked drawn and gets its pixel buffer unless it is a palette image; its picture is unchanged |
| Image.MemoryImage.NormalBlt | PopLib/graphics/memoryimage.cpp:1381-1422 | a `MemoryImage` source is used as above and its picture kept. The destination's pixel buffer is made, its buffers become `Redrawn` and the change is recorded; its pixels are within the frame and are not stated. Any other source changes nothing here |
| Image.MemoryImage.AdditiveBlt | PopLib/graphics/memoryimage.cpp:1341-1379 | the same as `NormalBlt` around its pixel loop |
| Image.MemoryImage.Blt | PopLib/graphics/memoryimage.cpp:1424-1440 | the source is marked drawn and the mode picks the blitter; an unknown mode does nothing else |
| Image.CopyPixels | PopLib/graphics/memoryimage.cpp:1176 | the `memcpy` of n pixels: the first n entries of the destination become those of the source and the rest are kept |
| Image.MemoryImage.SetBits | PopLib/graphics/memoryimage.cpp:1159-1183 | the image's own buffer changes nothing. Otherwise the picture becomes a copy of the w*h pixels, the palette and caches go, and a new buffer is made exactly when the size changes. The change is recorded, and the flags are committed over the new pixels when asked |
| Image.MemoryImage.CreateAsWritten | PopLib/graphics/memoryimage.cpp:1185-1198 | the size changes and the pixel buffer goes, but the palette stays; the image is well formed exactly when there was no palette or the pixel count is unchanged |
| Image.CreateKeepsPalette | PopLib/graphics/memoryimage.cpp:1185-1198 | a 1 x 1 palette image created at 2 x 1 keeps a one-byte index array for two pixels |
| Image.MemoryImage.Create | PopLib/graphics/memoryimage.cpp:1185-1198 | an empty well-formed w x h image, both alpha flags set, the change recorded; without backend data its picture is all zeros |
| Image.MemoryImage.Palletize | PopLib/graphics/memoryimage.cpp:1867-1904 | the outcome is `Palletized`. The flags are committed first. A palette image returns true and is otherwise unchanged. Otherwise the result is whether the quantiser succeeds on the picture. On failure the pixel buffer is made and kept, the picture is unchanged, and `wantPal` is false. On success new arrays holding the quantiser's table and indices replace the pixel buffer and the native copy, the picture becomes the indices looked up in the table, and `wantPal` is true |
| Image.MemoryImage.Quantize | PopLib/graphics/memoryimage.cpp:1874-1903 | the quantiser's outcome on the picture decides between the two outcomes above |
| Image.MemoryImage.PurgeBitsAsWritten | PopLib/graphics/memoryimage.cpp:1079-1109 | with 3-D data a palette image loses its palette but keeps its 256-entry native palette, so for any size but 256 the caches no longer fit |
| Image.PurgeKeepsNativePalette | PopLib/graphics/memoryimage.cpp:1079-1109 | a 1 x 1 accelerated palette image with its native palette ends with a 256-entry native copy for one pixel |
| Image.MemoryImage.PurgeBits | PopLib/graphics/memoryimage.cpp:1079-1109 | the outcome is `Purged`. `purgeBits` is set in every case. A purge that does not proceed changes nothing else. With acceleration and 3-D data the buffers become `Dropped`. Without acceleration the native copy is made first, and the flags are committed when it was missing; the buffers then become `Dropped`. The picture is then the native copy read back (`Unpremultiply` of `NativeOf` the old picture when the copy is made here), which loses precision (`Native.RoundTripLoses`), unless a palette stays. A palette image with 3-D data is left with no pixel buffer, no palette and no native copy, so its picture is what the backend recovers, or zeros. A native copy made here is new. The image stays well formed |
| Image.MemoryImage.MarkPurge | PopLib/graphics/memoryimage.cpp:1081 | `purgeBits` is set and nothing else changes, picture and analysis included |
| Image.MemoryImage.PurgeSoftware | PopLib/graphics/memoryimage.cpp:1090-1108 | the branch without acceleration: the flags are committed exactly when the native copy was missing, and the outcome is `SoftwarePurged`, the native copy made and the buffers then `Dropped` |
| Image.PurgedBySoftware | PopLib/graphics/memoryimage.cpp:1090-1108 | a native copy of the palette or the picture, followed by `Dropped`, is the software purge `SoftwarePurged` |
| Image.MemoryImage.ReleaseAsWritten | PopLib/graphics/memoryimage.cpp:1098-1108 | the pointers the source clears: the pixel buffer, and with 3-D data the palette and indices, but not the native copy |
| Image.MemoryImage.DropBits | PopLib/graphics/memoryimage.cpp:1098-1108 | the buffers become `Dropped`: no pixel buffer, and no palette when the backend holds data |
| Image.MemoryImage.ReInit | PopLib/graphics/memoryimage.cpp:1137-1145 | the ghost results name the state between the two steps. When a palette is wanted that state is `Palletized` from the old one, with `Palletize`'s result, and its flags are committed; otherwise it is the old state. When a purge was asked for, the final state is `Purged` from that state; otherwise it is that state. Arrays made on the way are new |
| Image.MemoryImage.PaletteIfWanted | PopLib/graphics/memoryimage.cpp:1140-1141 | the first step of `ReInit`: without `wantPal` nothing changes; with it the outcome is `Palletized` and the flags end committed. `purgeBits` is kept |
| Image.MemoryImage.DeleteSWBuffers | PopLib/graphics/memoryimage.cpp:1111-1124 | the three caches go; the pixel buffer is made first when there is neither buffer nor palette, so the picture is unchanged |
| Image.MemoryImage.DeleteNativeData | PopLib/graphics/memoryimage.cpp:1147-1157 | the native copy and the additive table go, the picture kept in the same way |
| SmartPointers.RefCount.constructor | PopLib/misc/smartptr.hpp:32-34 | a new object has count 0 |
| SmartPointers.RefCount.Copy | PopLib/misc/smartptr.hpp:60-62 | a copy has count 0, whatever the original's count |
| SmartPointers.RefCount.Assign | PopLib/misc/smartptr.hpp:63-66 | assignment leaves the target's count unchanged and returns the target |
| SmartPointers.RefCount.CreateRef | PopLib/misc/smartptr.hpp:36-44 | the count goes up by exactly 1 and the object itself is returned |
| SmartPointers.RefCount.Release | PopLib/misc/smartptr.hpp:46-55 | the count goes down by exactly 1, and the object is deleted exactly when the new count is at most 0 |
| SmartPointers.RefCount.GetRefCount | PopLib/misc/smartptr.hpp:68-71 | the count as an unsigned 64-bit value: itself when non-negative, wrapped around when negative |
| SmartPointers.AcquireRelease | PopLib/misc/smartptr.hpp:36-55 | a reference taken and given back leaves the count as it was; the object survives exactly when it was held already |
| SmartPointers.Address | PopLib/misc/smartptr.hpp:136-147 | a pointer's address is 0 exactly when it is null |
| SmartPointers.AddressUnique | PopLib/misc/smartptr.hpp:136-143 | for objects at distinct addresses, equal addresses mean the same pointer |
| SmartPointers.ConstSmartPtr.Null | PopLib/misc/smartptr.hpp:85-87 | the default pointer is null |
| SmartPointers.ConstSmartPtr.constructor | PopLib/misc/smartptr.hpp:90-92 | from a non-null object one reference is taken; from null none |
| SmartPointers.ConstSmartPtr.Copy | PopLib/misc/smartptr.hpp:93-95 | a copy points at the same object and takes one more reference on it |
| SmartPointers.ConstSmartPtr.Dispose | PopLib/misc/smartptr.hpp:98-102 | the destructor releases exactly once when the pointer is not null, and touches nothing otherwise |
| SmartPointers.ConstSmartPtr.Assign | PopLib/misc/smartptr.hpp:117-127 | assigning the pointer already held changes no count. Otherwise the old object is released once and the new one, if any, gains one reference. The argument is returned |
| SmartPointers.ConstSmartPtr.AssignFrom | PopLib/misc/smartptr.hpp:129-133 | assignment from another smart pointer is assignment from what it points at |
| SmartPointers.ConstSmartPtr.EqIsIdentity | PopLib/misc/smartptr.hpp:136-143 | `==` holds exactly when the pointers are the same, and `!=` is its negation |
| SmartPointers.ConstSmartPtr.LessTrichotomy | PopLib/misc/smartptr.hpp:144-147 | exactly one of `==`, `<` and the reversed `<` holds |
| SmartPointers.CompStrictOrder | PopLib/misc/smartptr.hpp:105-161 | `Comp` orders by the held pointer, which `->`, the conversion and `get()` all yield (`Get`): irreflexive and transitive, and two pointers are equivalent under it exactly when they hold the same object |

## Left out

- The floating-point and trigonometric drawing code is not modelled. That is `BltF`, `BltRotated`, `BltRotatedClipHelper`, `StretchBlt`, `StretchBltClipHelper`, `StretchBltMirrorClipHelper`, `SlowStretchBlt`, `FastStretchBlt`, `BltMatrix` and `BltMatrixHelper`. Their clipping and stepping work on `float` and `double`.
- The triangle rasteriser is not modelled: `BltTrianglesTex`, `BltTrianglesTexHelper` and `SWHelper::SWDrawShape`, which is foreign code.
- Loop bodies kept in `.inc` files that are not part of this model are not modelled. These are the pixel loops of `NormalBlt` and `AdditiveBlt`, of the anti-aliased line (`GENERIC_DrawLineAA`) and of the alpha run-length table (`MI_GetRLAlphaData`). What the surrounding code does to the flags and buffers is modelled.
- Image.MemoryImage.GetRLAlphaData: states the table's size and the buffers it makes, not its bytes, because the loop that writes them is not part of this model.
- Image.MemoryImage.NormalDrawLineAA: states the buffers and flags, not the pixels it blends, for the same reason.
- Image.MemoryImage.NormalBlt and Image.MemoryImage.AdditiveBlt: a source that is not a `MemoryImage` is null here, so its `mDrawn` flag is not modelled. The destination's pixels may change but are not stated. The destination's pixel buffer is taken to be obtained with `GetBits` inside the `.inc` loop, as the anti-aliased line does at memoryimage.cpp:665; that file is not part of this model.
- Lines with non-integer endpoints are not modelled. The fractional adjustments of the error terms vanish for integer endpoints, and the model requires both endpoints inside the image.
- `Quantize8Bit` is not modelled: it is foreign code, so it is the parameter `env.quantize`.
- `Is3DAccelerated`, `RecoverBits`, `mD3DData`, the display's channel layout and `mAdd8BitMaxTable` are parameters and are not modelled.
- The application registry is not modelled: `AddMemoryImage`, `RemoveMemoryImage`, `Remove3DData`, and with them `Delete3DBuffers` and the 3-D half of `DeleteExtraBuffers`.
- The copy constructor and the destructor of `MemoryImage` are not modelled; they allocate, copy and free memory.
- The atomic increment and decrement of `RefCount` on Windows are not modelled as atomic: they are plain steps.
- `long` is not bounded: the count is an unbounded integer.
- SmartPointers.RefCount.GetRefCount and module Image: the two take `ulong` at different widths. `GetRefCount` wraps at 2^64, the width of `unsigned long` on 64-bit platforms. Image takes pixels as 32-bit words, the width on 32-bit platforms and on Windows. Where `ulong` is 64 bits wide, an `int` shifted left by 24 with its top bit set would sign-extend into the upper word; the 32-bit pixel model does not show that.
- Image.MemoryImage.FillRect, Image.MemoryImage.ClearRect and Image.MemoryImage.PaintPixels: require the rectangle to lie inside the image (`Paint.Fits`). The source does not clip. A rectangle that overhangs the right edge but stays inside the buffer wraps into the next row (memoryimage.cpp:1273, 1283 and 1320); that case is not modelled.
- Image.MemoryImage.GetRLAdditiveData and Rle.EncodeRuns: require that an image with rows has columns (`height > 0 ==> width > 0`). The source reads the first pixel of every row before its row loop (memoryimage.cpp:984 and 1039), so for a 0-wide image with rows it reads past the end of an empty buffer; that read is not modelled.
- Image.MemoryImage.GetRLAdditiveData, Image.MemoryImage.GetNativeAlphaData and Image.MemoryImage.PurgeBits: one display, `env.display`, stands both for the argument `GetNativeAlphaData` is given and for `gAppBase->mSDLInterface`, which `PurgeBits` passes and whose layout `GetBits` reads back with. The model does not cover two different displays.
- `SmartPtr` is not a class of its own. It forwards its constructors, assignments and accessors to `ConstSmartPtr`, so `ConstSmartPtr` models both.
- Image.MemoryImage.SetBits: requires an existing pixel buffer when the size is unchanged, because the source then copies into `mBits` without checking it, so without a buffer the copy goes through a null pointer.
- Image.MemoryImage.FillRect: requires that a colour of alpha 0 is used only over pixels that have some alpha, because the source divides by the new alpha, which is 0 when both alphas are.
- Image.MemoryImage.Palletize: leaves the two run-length tables as they were, as the source does, although they were built from the old pixels; the model does not relate them to the new picture.
- The `OPTIMIZE_SOFTWARE_DRAWING` variant of `FillRect` is not modelled; the default branch, which floors blue term by term, is.

## Findings

| source | as written | input that shows it | evidently intended | confidence | as-written member | corrected member |
|---|---|---|---|---|---|---|
| PopLib/graphics/memoryimage.cpp:1185-1198 | `Create` frees `mBits` and changes the size, but keeps `mColorTable` and `mColorIndices` | a 1 x 1 palette image created at 2 x 1: `GetBits` then reads two index bytes from a one-byte array | an empty image whose picture is all zeros, with the palette dropped | medium, not executed | Image.MemoryImage.CreateAsWritten, Image.CreateKeepsPalette | Image.MemoryImage.Create |
| PopLib/graphics/memoryimage.cpp:1098-1108 | with 3-D data, `PurgeBits` frees the palette but keeps `mNativeAlphaData`, which for a palette image is a 256-entry native palette | a 1 x 1 palette image with its native palette and 3-D data, on an accelerated display: afterwards that copy is read as one native pixel per cell | the native palette dropped with the palette, so the caches fit the image | medium, not executed | Image.MemoryImage.PurgeBitsAsWritten, Image.PurgeKeepsNativePalette | Image.MemoryImage.PurgeBits |

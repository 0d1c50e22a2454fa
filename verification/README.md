# Colour palette applier: the palette-quantisation core in Dafny

The program loads a palette image and turns it into a list of palette entries.
As written, it decodes the image buffer as `w * h` consecutive 32-bit words,
one entry per word. That is one entry per pixel only for a 32-bit image whose
rows carry no padding (see "Findings"). It then rewrites every pixel of a
target image with the red, green and blue of the nearest palette entry. Nearness is the squared RGB distance, and
the first of several equally near entries wins. Each pixel keeps its own
alpha. The rewritten pixel is stored back in the image's own depth (1 to 4
bytes per pixel) and byte order. The rounded buttons of the window are
hit-tested with a central cross plus four corner discs.

The model is split into modules that follow the program's structure:

- `Pixels` (`pixels.dfy`) holds bytes, words and the platform byte order. It
  models the read switch (`LoadSample`) and the write switch (`StoreSample`)
  of the remapper, and proves their round trips.
- `Colors` (`colors.dfy`) holds the `Color` record and the squared RGB
  distance. It models the nearest-colour search as a recursive reference
  (`FirstNearest`) and as the loop the program runs (`FindClosestColor`).
- `Surfaces` (`surfaces.dfy`) holds the surface geometry and the byte offset
  `y * pitch + x * bpp`. It says which bytes a pixel occupies, how to read
  them and how to overwrite them.
- `Scan` (`scan.dfy`) gives the in-place row-major scan in closed form: the
  buffer after the pixels before a cursor have been visited.
- `Palette` (`palette.dfy`) models `loadPalette` as written, a corrected
  pixel-by-pixel extraction, and the inputs on which the two differ.
- `Remap` (`remap.dfy`) models `remapImageColors`, as a pure function of the
  buffer and as the in-place method over a byte array, and proves what it
  does to every pixel and to every other byte.
- `HitTest` (`hittest.dfy`) models `isPointInRoundedRect`, with a geometric
  reference definition: points within `radius` of the rectangle shrunk by
  `radius`.

The colour decoder `SDL_GetRGBA` and encoder `SDL_MapRGBA` are the `unpack`
and `pack` functions of a `PixelFormat`. Most properties assume nothing about
them. Three conditions are named where a property needs one:

- `AlphaSurvives`: an alpha the decoder can produce comes back after encoding
  and cutting the sample to the pixel's depth. Formats without an alpha channel
  meet it, because their decoder always answers opaque
  (`Remap.Rgb24KeepsAlpha`).
- `SamplesRoundTrip`: decoding and then encoding a sample gives it back. An
  XRGB8888 pixel with a non-zero pad byte breaks this, and so does a 16-bit
  1555 pixel whose unused top bit is set. An indexed format whose colour table
  repeats a colour breaks it too.
- `ColorsRoundTrip`: encoding and then decoding a colour gives it back.
  `Remap.ColorsRoundTripNeedsFourBytes` proves that only a 32-bit format can
  meet this, and RGBA8888 does (`Remap.Rgba32RoundTrips`).

The platform byte order (`SDL_BYTEORDER`, and the native `Uint16`/`Uint32`
loads and stores) is a `ByteOrder` parameter. A null pointer is `None`. Whether a
lock or an allocation succeeds is a boolean parameter.

## Model

| member | source | states |
|---|---|---|
| Colors.SqDist | main.c:69-72 | the squared RGB distance is 0 exactly when red, green and blue agree |
| Colors.SeedBoundsDistance | main.c:66-72 | every squared RGB distance is at most the seed `255*255*3`, so the seed never beats a real entry |
| Colors.FirstNearest | main.c:64-79 | reference search: 0 for an empty sequence, else an index no entry is strictly nearer than and every earlier entry is strictly further from |
| Colors.FirstNearestUnique | main.c:73-76 | at most one index is the first nearest one, so the strict `<` tie-break determines the answer |
| Colors.FirstNearestIgnoresAlpha | main.c:69-72 | changing the query's alpha never changes the answer |
| Colors.ExactMatchWins | main.c:68-77 | if some entry has the query's RGB, the answer has that RGB too |
| Colors.Candidates | main.c:68 | the entries the loop visits: the first `paletteSize`, none when the size is not positive |
| Colors.ClosestIndex | main.c:64-79 | reference answer of the search: 0 when `paletteSize <= 0`, otherwise an index below `paletteSize` that is the first nearest among the candidates |
| Colors.FindClosestColor | main.c:64-79 | returns 0 when `paletteSize <= 0`, otherwise the lowest index of minimal squared RGB distance among the first `paletteSize` entries |
| Colors.FindClosestColorAgrees | main.c:64-79 | any answer meeting the loop's contract is the reference answer |
| Pixels.LoadSample | main.c:104-122 | the sample read from a pixel's bytes fits the pixel's depth; an unhandled depth reads 0 |
| Pixels.StoreSample | main.c:132-154 | the write switch stores exactly as many bytes as the depth has, and none for an unhandled depth |
| Pixels.LoadStoreNative | main.c:136-153 | a native store of `n` bytes followed by a native load gives the value modulo 256^n, in both byte orders |
| Pixels.ThreeByteBranchIsNative | main.c:111-116 | the explicit 3-byte read and write branches lay bytes out as a native 3-byte access would, in both byte orders |
| Pixels.SampleRoundTrip | main.c:132-154 | writing a sample and reading it back gives the sample truncated to the depth (for 3 bytes, `mappedPixel & 0xFFFFFF`) |
| Pixels.PixelBytesRoundTrip | main.c:104-122 | reading a pixel's bytes into a sample and writing it back reproduces the bytes |
| Surfaces.Offset | main.c:100 | a pixel that starts inside a row lies in row `y`, at byte `x * bpp` of that row |
| Surfaces.ReadColor | main.c:100-126 | the decoded colour is the decoder applied to the sample assembled from the `bpp` bytes at the pixel's offset; an unhandled depth decodes 0 |
| Surfaces.PixelInBuffer | main.c:98-100 | every byte of every pixel lies inside the buffer |
| Surfaces.EarlierPixelEndsFirst | main.c:98-100 | pixels visited earlier end before later ones begin, so pixel ranges never overlap |
| Surfaces.PaddingInNoPixel | main.c:98-100 | a byte past the last pixel of a row belongs to no pixel |
| Surfaces.PixelBytes | main.c:100 | the bytes at `y*pitch + x*bpp` number exactly the pixel's width |
| Surfaces.WritePixel | main.c:132-154 | overwriting a pixel keeps the buffer length, leaves the pixel holding the new bytes and changes no byte outside it |
| Scan.Locate | main.c:98-100 | every byte in the pixel part of a row is byte `LaneOf` of pixel `(ColOf, RowOf)` of the image |
| Scan.LocateUnique | main.c:98-100 | a byte of pixel `(x, y)` is located at that pixel and no other |
| Scan.MapBeforeStart | main.c:98-99 | before the first pixel the buffer is untouched |
| Scan.MapBeforeNextRow | main.c:98-99 | the end of one row and the start of the next are the same state |
| Scan.MapBeforeStep | main.c:99-154 | visiting a pixel finds its original bytes still there and writes the map of them, moving the cursor one pixel on |
| Scan.MapAllPixel | main.c:98-156 | after the scan every pixel holds the map of its original bytes |
| Scan.MapAllFrame | main.c:98-156 | after the scan a byte of no pixel holds its original value |
| Scan.MapAllFixed | main.c:98-156 | a scan whose map gives every pixel its own bytes back changes nothing |
| Scan.StorePixel | main.c:132-154 | storing a pixel's bytes one at a time leaves the buffer with exactly that pixel overwritten |
| Palette.PixelWord | main.c:54-58 | the `i`-th 32-bit word is the value whose native 4-byte encoding is bytes `4*i` to `4*i+3` |
| Palette.LoadPalette | main.c:39-60 | null surface or output: outputs untouched; otherwise size `w*h`, and after a successful allocation entry `i` is the decoded `i`-th 32-bit word of the buffer; a failed allocation leaves a null palette |
| Palette.WordIsPixelWhenTight | main.c:54-58 | on a tightly packed 32-bit surface the `i`-th word is pixel `(i % w, i / w)` |
| Palette.TightWordsArePixels | main.c:54-58 | on a tightly packed 32-bit surface the extraction as written equals the pixel-by-pixel one |
| Palette.PixelIndexInImage | main.c:57 | every palette index `i < w*h` names a pixel `(i % w, i / w)` of the image |
| Palette.LoadPaletteByPixel | main.c:39-60 | corrected extraction: as `LoadPalette`, but entry `i` is the colour of pixel `(i % w, i / w)`, honouring pitch and depth |
| Palette.WordIndexingMisreads24Bit | main.c:54-58 | on a 2x1 24-bit image with an 8-byte pitch, entry 1 is (5, 6, 0) while pixel (1, 0) is (4, 5, 6) |
| Palette.WordIndexingOverreadsNarrowPixels | main.c:54-58 | on an image of 1-, 2- or 3-byte pixels without row padding, the `w*h` words read end past the buffer |
| Palette.WordIndexingOverreads24Bit | main.c:54-58 | a 4x1 24-bit image with pitch 12 has 12 bytes, and the words read span 16 |
| Remap.Recolor | main.c:125-129 | the encoder gets the source alpha and the RGB of the entry at the search's answer: no candidate is nearer, every earlier candidate is strictly further |
| Remap.MapSample | main.c:126-129 | the sample written is the encoding of the nearest candidate's red, green and blue with the decoded source alpha |
| Remap.MapBytes | main.c:100-154 | the write-back has as many bytes as the pixel read |
| Remap.RemappedPixels | main.c:82-91 | a null surface or a failed required lock leaves the buffer as it was |
| Remap.RemapPixelContent | main.c:98-154 | every pixel ends up holding read switch, match and write switch applied to its original bytes |
| Remap.RemapFrame | main.c:98-154 | a byte that belongs to no pixel keeps its value |
| Remap.RowPaddingUntouched | main.c:98-100 | the padding at the end of every row is never written |
| Remap.UnhandledDepthWritesNothing | main.c:132-154 | a depth outside 1 to 4 bytes leaves the whole buffer unchanged |
| Remap.RemapReadsBack | main.c:100-154 | with no assumption on the codec, a remapped pixel reads back as the decoding of the encoded recoloured source colour, cut to the pixel's depth |
| Remap.RemapKeepsAlpha | main.c:125-129 | for every depth and byte order, when the format meets `AlphaSurvives`, each pixel reads back with its old alpha |
| Remap.ColorsRoundTripNeedsFourBytes | main.c:104-154 | no format of another depth than 4 bytes decodes every encoded colour back to itself |
| Remap.RemapReadsNearest | main.c:125-129 | for a 32-bit format that meets `ColorsRoundTrip`, a remapped pixel reads back as its old alpha with the nearest entry's RGB |
| Remap.PixelWithPaletteColorUnchanged | main.c:124-154 | when the format meets `SamplesRoundTrip`, a pixel whose colour is a candidate is rewritten with its own bytes |
| Remap.OwnPixelKeepsBytes | main.c:124-154 | when the format meets `SamplesRoundTrip`, against the palette extracted pixel by pixel from the image itself, every pixel is rewritten with its own bytes |
| Remap.RemapAgainstOwnPixelsIsIdentity | main.c:82-161 | when the format meets `SamplesRoundTrip`, remapping an image against the palette extracted pixel by pixel (the corrected `loadPalette`) from the image itself leaves it unchanged |
| Remap.RemapAgainstOwnWordsIsIdentity | main.c:39-161 | the same with `loadPalette` as written, on the images where it reads one word per pixel: 32-bit, no row padding |
| Remap.BlackAndWhiteExample | main.c:125-129 | against black and white, (10, 10, 10, 255) becomes (0, 0, 0, 255) and (250, 250, 250, 128) becomes (255, 255, 255, 128) |
| Remap.RemapPixel | main.c:100-154 | one loop iteration: the buffer afterwards is the old one with this pixel replaced by the mapped bytes |
| Remap.RemapImageColors | main.c:82-161 | the in-place remap leaves the buffer equal to `RemappedPixels` of the original buffer |
| HitTest.IsPointInRoundedRect | main.c:198-226 | the answer is 0 or 1 |
| HitTest.BandIsNearCore | main.c:199-204 | a point in either band of the cross is within `radius` of the shrunk rectangle |
| HitTest.DiscIsNearCore | main.c:209-223 | a point in a corner disc is within `radius` of the shrunk rectangle |
| HitTest.HitIsNearCore | main.c:198-226 | every accepted point is within `radius` of the shrunk rectangle |
| HitTest.NearCoreIsHit | main.c:198-226 | every point within `radius` of the shrunk rectangle is accepted |
| HitTest.RoundedRectIsNearCore | main.c:198-226 | when the radius fits, the test accepts exactly the points within `radius` of the rectangle shrunk by `radius` |
| HitTest.HitInsideBox | main.c:198-226 | when the radius fits, every accepted point lies in the closed bounding box |
| HitTest.CornerIsCut | main.c:199-211 | with a positive radius that fits, the sharp top-left corner is rejected |
| HitTest.MirrorSymmetric | main.c:199-223 | the test is symmetric under reflection in the vertical axis |
| HitTest.FlipSymmetric | main.c:199-223 | the test is symmetric under reflection in the horizontal axis |
| HitTest.ZeroRadiusIsRectangle | main.c:199-201 | with radius 0 the test accepts exactly the closed rectangle |

## Left out

- The internals of `SDL_GetRGBA` and `SDL_MapRGBA` are left out. They depend on the format's masks and shifts, so they are the abstract `unpack` and `pack`.
- Surface locking is left out: `SDL_LockSurface` and `SDL_UnlockSurface` become a `lockOk` flag, and the unlock has no effect on the bytes.
- `malloc` is left out; its result is an `allocOk` flag.
- `loadPalette` takes two out-pointers. They are modelled as one `Option<Outputs>`, null or not together.
- `renderImage` is left out because it uses floating point. `drawRoundedRectImage`, `renderButtons` and `main` are left out because they are rendering, dialogs, file I/O and the event loop.
- Palette.LoadPalette: does not model C `int` overflow of `w * h`. Its precondition asks that the product fit an `int` and that the buffer hold `w * h` 32-bit words. That excludes ordinary 8-bit and unpadded 24-bit palette images, on which the program reads past the end of the buffer (see "Findings"). `Palette.LoadPaletteByPixel` covers every well-formed image.
- Remap.RemapReadsNearest: states the full colour read-back only for 32-bit formats. Smaller depths cannot meet `ColorsRoundTrip`. For them `Remap.RemapReadsBack` gives the read-back in terms of the codec, and `Remap.RemapKeepsAlpha` the alpha.
- HitTest.IsPointInRoundedRect: does not model 32-bit overflow of `dx * dx + dy * dy` or of the coordinate sums. The arithmetic is unbounded.
- Colors.FindClosestColor: does not model reading past the allocated palette. Its precondition asks for `paletteSize` entries.
- Remap.RemappedPixels: requires palette entry 0 to exist whenever the image has a pixel. The program reads `palette[closestIndex]` even for an empty search, and the model does not give a meaning to that out-of-bounds read.
- Remap.MapBytes: its own contract states only the width. The content of the write-back is stated by Remap.MapSample, Pixels.SampleRoundTrip and Remap.RemapReadsBack.
- An empty palette image is followed as the code handles it. `loadPalette` reports size 0 and allocates zero entries; it does not report a failure.
- For an unhandled depth the program still decodes the sample 0 and runs the search. Nothing of that is written, so the model leaves the pixel's (empty) bytes as they are.

## Findings

| source | as written | input that shows it | evidently intended | confidence | as-written member | corrected member |
|---|---|---|---|---|---|---|
| main.c:54-58 | the palette is read as consecutive 32-bit words `pixels[i]`, ignoring pitch and bytes per pixel | a 2x1 24-bit palette image with pitch 8 and bytes 1 2 3 4 5 6 0 0: entry 1 decodes bytes 5 6 0 0 instead of pixel (1, 0), which is 4 5 6 | entry `i` is the colour of pixel `(i % w, i / w)`, read at `y*pitch + x*bpp` with the pixel's own depth | not executed | Palette.WordIndexingMisreads24Bit | Palette.LoadPaletteByPixel |
| main.c:54-58 | the loop reads `w*h` 32-bit words whatever the depth and pitch | a 4x1 24-bit palette image with pitch 12 has a 12-byte buffer; word 3 is bytes 12 to 15, past the end | read only the `bpp` bytes of each pixel, inside the buffer | not executed | Palette.WordIndexingOverreadsNarrowPixels | Palette.LoadPaletteByPixel |

# Mesh-gradient placeholder renderer, modelled in Dafny

The service renders "mesh gradient" placeholder images. Three palette
colours and a fixed 6-column by 4-row grid of weighted palette references
(`colorIndex`, `influence`) are blended bilinearly at every pixel:

- each grid corner is first pulled from white toward its palette colour by
  its influence;
- the sample point may be displaced by simplex noise;
- a hash grain may be added;
- the result is written as RGBA bytes.

There are two rasterizers. One is written in JavaScript
(src/meshGradient.ts). The other is compiled to WebAssembly from
AssemblyScript (assembly/index.ts) and works on raw linear memory. A host
wrapper (src/meshGradientWasm.ts) lays the grid out in that memory and
calls it. Rendered images are cached under a fingerprint of the request
parameters (src/cache.ts).

The project has one module per concern:

| file | module | what it holds |
|---|---|---|
| wrappers.dfy | Wrappers | `Option` and `Result` |
| js_number.dfy | JsNumber | the JavaScript number operations the sources rely on: 32-bit wrap-around (`ToInt32`, `ToUint32`), shifts, `Math.floor`/`ceil`/`round`/`abs`, clamping, truncation, the `Uint8Array` store |
| js_text.dfy | JsText | strings as UTF-16 code units, `parseInt(_, 16)`, `Number.prototype.toString(radix)`, `Array.prototype.join` |
| binary32.dfy | Binary32 | decoding a finite IEEE 754 binary32 bit pattern, the way `load<f32>` reads it |
| linear_memory.dfy | LinearMemory | the WebAssembly memory: a class with a byte sequence that grows by 64 KiB pages; little-endian 32-bit loads and stores |
| cache.dfy | Cache | `generateCacheKey` and `hashString` |
| mesh_gradient.dfy | MeshGradient | the JavaScript rasterizer up to the JPEG encoder |
| assembly.dfy | Assembly | the AssemblyScript rasterizer: `SimplexNoise` permutation table, `fastNoise`, colour helpers, `getPixelColor`, and `generateImageFull` as a class `Instance` over a `Memory` |
| mesh_gradient_wasm.dfy | MeshGradientWasm | the host: `hexToInt`, `ensureCapacity`, grid serialisation, option defaults, the call and the copy-out |

Several things the sources take from outside become parameters:

- The simplex noise function (`createNoise2D()` in JavaScript, the f32 body of `SimplexNoise.noise2D` in AssemblyScript) is `Noise2D`.
- The rounding of a double product (`ToDouble`) is a parameter.
- The rounding of a real to a binary32 bit pattern (`Float32Rounding`, what `DataView.setFloat32` does) is a parameter.
- The collation behind `localeCompare` (`Collation`) is a parameter.
- The buffer pointers returned by `allocateBuffer` are parameters.

Colour and coordinate arithmetic is over reals. The integer operations
(floor, truncation, masks, shifts, 32-bit wrap-around) are written out
exactly.

## Model

| member | source | states |
|---|---|---|
| JsNumber.ToInt32 | src/cache.ts:23 | the result is a signed 32-bit integer congruent to the input modulo 2^32 |
| JsNumber.ToInt32Congruent | src/cache.ts:22-23 | inputs equal modulo 2^32 give the same 32-bit value |
| JsNumber.ToUint32 | assembly/index.ts:237-239 | the result is an unsigned 32-bit integer congruent to the input modulo 2^32 |
| JsNumber.Signed | assembly/index.ts:112-114 | reading a 32-bit pattern as i32 gives an int32 that is negative exactly when the top bit is set and keeps the low 31 bits |
| JsNumber.ShiftLeft | src/cache.ts:22 | `a << n` always yields an int32 |
| JsNumber.LowByte | src/meshGradient.ts:315-317 | `a & 255` is a byte equal to the low byte of `a`'s 32-bit pattern |
| JsNumber.Floor | src/meshGradient.ts:169-170 | `Math.floor` returns the integer n with n <= r < n + 1 |
| JsNumber.Ceil | src/meshGradient.ts:51-52 | `Math.ceil` returns the integer n with n - 1 < r <= n |
| JsNumber.CeilOfQuotient | src/meshGradient.ts:51-52 | `Math.ceil(a / b)` equals the integer quotient rounded up, (a + b - 1) / b |
| JsNumber.Round | src/meshGradient.ts:289-291 | `Math.round` lies within one half of its argument |
| JsNumber.Trunc | assembly/index.ts:109-110 | `i32(f)` truncates toward zero, from below for non-negative and from above for negative values |
| JsNumber.Clamp | src/meshGradient.ts:97-98 | `max(lo, min(hi, v))` lies in [lo, hi], equals v inside it, and equals the nearer bound outside |
| JsNumber.ToUint8 | src/meshGradient.ts:120-123 | the `Uint8Array` store of a value in [0, 256) keeps its integer part |
| JsNumber.Abs | src/cache.ts:25 | `Math.abs` returns n or -n, and never a negative number |
| JsText.TrimStart | src/meshGradientWasm.ts:151 | `parseInt` skips exactly the leading white space |
| JsText.DigitChar | src/cache.ts:25 | each digit value below 36 has a lower-case digit character that reads back as that value |
| JsText.DigitPrefixLength | src/meshGradientWasm.ts:151 | `parseInt` reads the longest prefix of digits valid in the radix and stops at the first invalid character |
| JsText.DigitsValueBound | src/meshGradientWasm.ts:151 | a string of k digits in radix b denotes a value below b^k |
| JsText.ParseInt16 | src/meshGradientWasm.ts:151 | `parseInt(s, 16)` after the white space, sign and `0x` prefix is NaN when no hex digit follows, and otherwise the exact value of the digit run (unrounded, see Left out), whose magnitude is below 16^|s|; so a string of at most 13 units gives a value below 2^52, which a double holds exactly |
| JsText.ParseSixHexDigits | src/meshGradient.ts:313 | six hex digits parse to their value, which is below 0x1000000 |
| JsText.DigitsValueAppend | src/meshGradient.ts:313 | appending a digit multiplies the value read so far by the radix and adds the digit |
| JsText.ToRadixString | src/cache.ts:25 | `toString(radix)` is a non-empty string of lower-case digits with no leading zero |
| JsText.RadixRoundTrip | src/cache.ts:25 | reading `n.toString(radix)` back in the same radix gives n |
| JsText.Join | src/cache.ts:9 | joining no parts gives the empty string, and joining one part gives that part |
| Binary32.Value | assembly/index.ts:184 | `load<f32>` of the all-zero pattern is 0 |
| Binary32.KnownValues | assembly/index.ts:184 | the patterns 0x3F800000 and 0x3F000000 are finite and decode to 1.0 and 0.5 |
| LinearMemory.LoadU32 | assembly/index.ts:183 | a little-endian 4-byte load is an unsigned 32-bit value |
| LinearMemory.LoadI32 | assembly/index.ts:183 | `load<i32>` is an int32 with the same 32-bit pattern as the unsigned load |
| LinearMemory.LoadLe32 | assembly/index.ts:183 | loading 4 bytes written as the little-endian encoding of u gives back u |
| LinearMemory.Le32OfLoad | assembly/index.ts:183 | re-encoding a loaded value reproduces the 4 bytes it was read from |
| LinearMemory.Memory.Grow | src/meshGradientWasm.ts:63 | growing keeps the memory a whole number of pages, returns the previous page count, keeps every old byte and appends delta zeroed pages |
| LinearMemory.Memory.StoreU8 | assembly/index.ts:308-311 | `store<u8>` changes exactly the addressed byte |
| LinearMemory.Memory.StoreLe32 | src/meshGradientWasm.ts:75-76 | a little-endian 32-bit store replaces exactly the 4 addressed bytes with the encoding of the value |
| Cache.InsertByName | src/cache.ts:8 | inserting into a sorted list adds exactly that entry: the multiset of entries grows by one |
| Cache.InsertKeepsSorted | src/cache.ts:8 | for a strict collation, inserting into a list sorted by name keeps it sorted |
| Cache.SortByName | src/cache.ts:8 | sorting by name is a permutation of the entries |
| Cache.SortIsSorted | src/cache.ts:8 | for a strict collation, the result is ordered by name |
| Cache.SortedOrderUnique | src/cache.ts:8 | two name-sorted lists with the same entries, where a name fixes its entry, are equal |
| Cache.DistinctNamesDetermineEntries | src/cache.ts:8 | when the parameter names are distinct, each name fixes its entry |
| Cache.SortIgnoresOrder | src/cache.ts:8 | reordering parameters with distinct names does not change the sorted list |
| Cache.Pair | src/cache.ts:9 | definition: the parameter name, `=`, and its value |
| Cache.KeyString | src/cache.ts:9 | no parameters give the empty string, and a single parameter gives its `name=value` pair; otherwise the pairs are joined with `&` |
| Cache.Poly | src/cache.ts:19-24 | definition: the code units read as a base-31 number, most significant first, before any wrap-around |
| Cache.Hash | src/cache.ts:19-24 | the hash accumulator always stays in the int32 range |
| Cache.HashStep | src/cache.ts:22-23 | one step `((h << 5) - h) + c`, then `& hash`, equals ToInt32(31 * h + c): the 31·h + c polynomial with 32-bit wrap-around |
| Cache.HashString | src/cache.ts:18-26 | the loop computes the fingerprint: base-36 of the absolute wrapped hash, a hyphen, then the decimal length |
| Cache.Fingerprint | src/cache.ts:25 | definition: the base-36 digits of the hash's absolute value, a hyphen, then the decimal length; FingerprintRoundTrip reads both numbers back |
| Cache.GenerateCacheKey | src/cache.ts:6-13 | the key is the fingerprint of the name-sorted `k=v` pairs joined with `&` |
| Cache.CacheKeyIgnoresOrder | src/cache.ts:6-13 | the key does not depend on the order of parameters with distinct names |
| Cache.EmptyStringFingerprint | src/cache.ts:18-26 | the empty string hashes to "0-0" |
| Cache.FingerprintRoundTrip | src/cache.ts:25 | a fingerprint splits at its only hyphen into \|hash\| in base 36 and the input length in decimal, so both can be read back |
| MeshGradient.NormalizeHex | src/meshGradient.ts:306-311 | stripping a leading `#` and doubling a 3-digit code never lengthens it, except that a 3-digit code becomes 6 digits |
| MeshGradient.HexToRgb | src/meshGradient.ts:304-319 | every channel of the parsed colour is in [0, 255], whatever the input |
| MeshGradient.HexToRgbSixDigits | src/meshGradient.ts:304-319 | for six hex digits, r·65536 + g·256 + b is the parsed number |
| MeshGradient.ShortFormChannels | src/meshGradient.ts:306-311 | `#abc` and `abc` give the same colour, each channel being 17 times its digit |
| MeshGradient.ChannelsUnique | src/meshGradient.ts:315-317 | byte channels are determined by their recombined 24-bit value |
| MeshGradient.FastNoise | src/meshGradient.ts:167-179 | the grain noise is always in [-1, 1], however the double product is rounded |
| MeshGradient.BlockHash | src/meshGradient.ts:173-175 | definition: the hash of the block coordinates, with the product by 1274126177 rounded to a double by the `ToDouble` parameter |
| MeshGradient.Normalize | src/meshGradient.ts:178 | `(m / 0x7FFFFFFF) * 2 - 1` maps [0, 2^31 - 1] onto [-1, 1], its ends onto -1 and 1 |
| MeshGradient.FastNoiseBlock | src/meshGradient.ts:169-175 | pixels in the same aligned 2×2 block get the same grain value |
| MeshGradient.Lerp | src/meshGradient.ts:289-291 | a + (b - a)·t is a at t = 0 and b at t = 1, and lies between a and b for t in [0, 1] |
| MeshGradient.MixChannel | src/meshGradient.ts:289-291 | a rounded channel mix hits both endpoints exactly and stays between them for t in [0, 1] |
| MeshGradient.InterpolateColor | src/meshGradient.ts:287-293 | the colour mix returns color1 at t = 0 and color2 at t = 1, keeps equal colours, and keeps channels in [0, 255] for t in [0, 1] |
| MeshGradient.BlendColorWithInfluence | src/meshGradient.ts:260-263 | influence 0 gives white, influence 1 gives the palette colour, and influences in [0, 1] keep the channels in [0, 255] |
| MeshGradient.BilinearInterpolate | src/meshGradient.ts:268-282 | four equal corners give that colour; each unit-square corner gives its own corner colour; in-gamut inputs give an in-gamut result |
| MeshGradient.Locate | src/meshGradient.ts:230-239 | for 0 <= x <= width-1, cellX is in [0, 4] and tx in [0, 1], with tx = 1 exactly at x = width-1 (the same holds for y, cellY in [0, 2]); cell plus offset is the grid coordinate; a negative coordinate gives a negative cell |
| MeshGradient.CornerColor | src/meshGradient.ts:248-251 | looking up a corner's palette colour succeeds exactly when its colorIndex is a palette index |
| MeshGradient.GetPixelColor | src/meshGradient.ts:221-255 | a negative sample throws; a non-negative one succeeds when every colorIndex is a palette index; in-image samples of in-gamut inputs give in-gamut colours |
| MeshGradient.UniformGridColor | src/meshGradient.ts:221-255 | a grid whose points are all equal gives that point's blended colour everywhere |
| MeshGradient.NoiseDim | src/meshGradient.ts:51-52 | the map dimension is ceil(n / 4) |
| MeshGradient.NoiseAt | src/meshGradient.ts:66-67 | definition: the noise function sampled at the position scaled by the frequency |
| MeshGradient.DisplacementMap | src/meshGradient.ts:58-59 | a baked map holds noiseWidth·noiseHeight values |
| MeshGradient.BakeDisplacementMaps | src/meshGradient.ts:56-70 | the baking loops fill both fresh arrays completely with the specified noise samples |
| MeshGradient.BakeRow | src/meshGradient.ts:62-68 | one row of baking extends the filled prefix of both maps by one map row |
| MeshGradient.BakeCell | src/meshGradient.ts:63-67 | one step writes index y·noiseWidth + x of both maps, and only that index |
| MeshGradient.BakedEntry | src/meshGradient.ts:63-67 | entry y·noiseWidth + x is in range and holds the noise at (x·4 + offset, y·4 + offset) |
| MeshGradient.NoiseCorners | src/meshGradient.ts:193-204 | the bilinear weights are in [0, 1), and x1, y1 are clamped to the last map column and row |
| MeshGradient.Lookup | src/meshGradient.ts:207-210 | reading a Float32Array is defined exactly for in-range indices |
| MeshGradient.SampleNoiseMap | src/meshGradient.ts:184-216 | the sample is defined exactly when all four corner indices are inside the map |
| MeshGradient.SampleNoiseMapBounded | src/meshGradient.ts:213-215 | a bilinear sample of a map bounded by ±bound is bounded by ±bound |
| MeshGradient.NoiseCornersInRange | src/meshGradient.ts:193-210 | for in-image pixels, x0 <= x1 < mapWidth, y0 <= y1 < mapHeight and all four indices lie in [0, mapWidth·mapHeight) |
| MeshGradient.SampleNoiseMapDefined | src/meshGradient.ts:90-91 | sampling a baked map at an in-image pixel never reads outside it |
| MeshGradient.SamplePoint | src/meshGradient.ts:84-100 | without displacement the sample is the pixel itself; with it, the sample is clamped into the image |
| MeshGradient.Displaced | src/meshGradient.ts:93-98 | the displaced coordinate lies in [0, size-1], and is the pixel itself when the noise contributes nothing |
| MeshGradient.GrainValue | src/meshGradient.ts:113 | the grain added to a channel lies in [-intensity·255, intensity·255] |
| MeshGradient.Shade | src/meshGradient.ts:114-123 | with grain the channel stored is the clamped sum truncated to a byte; without grain it is the channel unchanged |
| MeshGradient.PixelBytes | src/meshGradient.ts:84-124 | a pixel is 4 bytes with alpha 255, or the TypeError of an undefined grid point or palette entry |
| MeshGradient.PixelGrain | src/meshGradient.ts:111-113 | grain is applied exactly when it is enabled |
| MeshGradient.ShadedBytes | src/meshGradient.ts:114-124 | the stored pixel is the three shaded channels followed by alpha 255 |
| MeshGradient.ImageRowsIndex | src/meshGradient.ts:120-124 | byte 4·(y·width + x) + c of the image is channel c of pixel (x, y) |
| MeshGradient.ImageBytes | src/meshGradient.ts:75 | the image is width·height·4 bytes |
| MeshGradient.ImageBytesOpaque | src/meshGradient.ts:124 | every alpha byte of the image is 255 |
| MeshGradient.ImageBytesIndex | src/meshGradient.ts:120-124 | each pixel (x, y) is stored at bytes (y·width + x)·4 to +3 of the image |
| MeshGradient.DisplacedSample | src/meshGradient.ts:84-100 | the loop's sample point is the specified one |
| MeshGradient.ShadeColor | src/meshGradient.ts:107-118 | the loop's grain step produces the specified pixel bytes |
| MeshGradient.ComputePixel | src/meshGradient.ts:84-124 | one iteration of the pixel loop yields the specified pixel: its four bytes, or the TypeError of its colour lookup |
| MeshGradient.StoreRowPixel | src/meshGradient.ts:120-124 | storing a computed pixel at (y·width + x)·4 extends the written part of row y by exactly that pixel |
| MeshGradient.FillPixel | src/meshGradient.ts:83-125 | one pass of the inner loop fails with TypeError exactly when the pixel does, leaving the buffer unchanged; otherwise it extends row y by that pixel |
| MeshGradient.FillRow | src/meshGradient.ts:82-126 | one row of the loop fails with TypeError exactly when some pixel of the row does; otherwise the buffer gains the row's bytes after the earlier rows |
| MeshGradient.PixelsOfComputes | src/meshGradient.ts:84-124 | the pixel function used to specify the image is the per-pixel computation of the loop at every pixel |
| MeshGradient.StorePixel | src/meshGradient.ts:120-124 | the four stores append the pixel to the bytes already written |
| MeshGradient.FillPixels | src/meshGradient.ts:82-126 | the pixel loop fails with TypeError exactly when some pixel does; otherwise the buffer is the specified image |
| MeshGradient.Palette | src/meshGradient.ts:45 | the palette has one in-gamut colour per colour code |
| MeshGradient.ValidGrid | src/meshGradient.ts:39-42 | definition: exactly 4 rows, each of exactly 6 points |
| MeshGradient.Render | src/meshGradient.ts:32-126 | a grid other than 4 rows of 6 points fails with the grid error; a rendered buffer is width·height·4 bytes |
| MeshGradient.RenderOpaque | src/meshGradient.ts:124 | every alpha byte of a rendered buffer is 255 |
| MeshGradient.GenerateMeshGradient | src/meshGradient.ts:32-126 | generation returns a fresh buffer holding the rendered image, or the error rendering gives (InvalidGrid for a grid that is not 4 rows of 6; the body returns it before any array is allocated) |
| MeshGradient.UniformPixel | src/meshGradient.ts:82-124 | with no grain, a uniform grid gives every pixel the blended colour of its point, opaque |
| MeshGradient.UniformPixels | src/meshGradient.ts:82-124 | with no grain, every in-image pixel of a uniform grid is the point's blended colour, opaque |
| MeshGradient.ConstantImage | src/meshGradient.ts:82-124 | when every pixel is the same 4 bytes, the image is those bytes repeated width·height times |
| MeshGradient.UniformGridImage | src/meshGradient.ts:32-126 | with no grain, a uniform grid renders to a single colour repeated over the image |
| Assembly.SimplexNoise.constructor | assembly/index.ts:8-39 | the 512-entry table satisfies perm[i] = p[i mod 256], and grad3 holds the 12 gradients |
| Assembly.SimplexNoise.DoubledTable | assembly/index.ts:36-38 | the loop fills all 512 entries with p[i & 255], which is p[i mod 256] |
| Assembly.SimplexNoise.Periodic | assembly/index.ts:36-38 | perm[i + 256] = perm[i] |
| Assembly.SimplexNoise.PermIndices | assembly/index.ts:73-77 | every perm index noise2D computes is at most 511 |
| Assembly.SimplexNoise.GradientIndices | assembly/index.ts:75-77 | gi0, gi1 and gi2 index the 12-entry grad3 |
| Assembly.FastNoise | assembly/index.ts:108-117 | the bit-exact i32 wrap-around grain noise is always in [-1, 1] |
| Assembly.Hash | assembly/index.ts:112-114 | the i32 hash wraps every product and sum modulo 2^32, and the origin block hashes to 0 |
| Assembly.HashValues | assembly/index.ts:112-114 | the wrap-around hash of (0,0), (1,0), (0,1), (3,7) and (5,2) has the listed bit patterns |
| Assembly.FastNoiseOrigin | assembly/index.ts:108-117 | the origin block hashes to 0, so its grain noise is -1 |
| Assembly.FastNoiseBlock | assembly/index.ts:108-117 | pixels in the same aligned 2×2 block get the same grain value |
| Assembly.LerpColor | assembly/index.ts:125-131 | the mix is c1 at t = 0 and c2 at t = 1, keeps equal colours, and stays in [0, 255] for t in [0, 1] |
| Assembly.BlendColorWithInfluence | assembly/index.ts:134-147 | influence 0 gives white, influence 1 gives the palette colour, and influences in [0, 1] stay in range |
| Assembly.UnpackColor | assembly/index.ts:248-258 | the unpacked channels are bytes that recombine to c & 0xFFFFFF |
| Assembly.UnpackChannels | assembly/index.ts:248-258 | packing three bytes and unpacking them gives the same three bytes back |
| Assembly.ToColor | assembly/index.ts:248-250 | converting in-gamut integer channels to f32 keeps them in [0, 255] |
| Assembly.SelectPalette | assembly/index.ts:196-214 | colorIndex 0 selects palette0, 1 selects palette1, and any other value selects palette2 |
| Assembly.SelectPaletteAgrees | assembly/index.ts:196-214 | for a valid palette index the selection is the palette entry the JavaScript rasterizer reads |
| Assembly.RecordAddress | assembly/index.ts:178-181 | every corner record address is 8-byte aligned and lies in [gridPtr, gridPtr + 184] |
| Assembly.RecordAddressInjective | assembly/index.ts:178-181 | distinct grid points have distinct record addresses |
| Assembly.InfluenceBits | assembly/index.ts:184 | the influence of a record is a 32-bit pattern |
| Assembly.ColorIndexAt | assembly/index.ts:183 | the colorIndex of a record is an int32 |
| Assembly.InfluenceAt | assembly/index.ts:184 | the pattern 0x3F800000 reads as influence 1.0 |
| Assembly.CornerColor | assembly/index.ts:183-220 | an in-range palette and an influence in [0, 1] give an in-range corner colour |
| Assembly.LocateCell | assembly/index.ts:159-172 | for in-image pixels, cellX is in [0, 4], cellY in [0, 2], and tx, ty in [0, 1]; the first column and row give cell 0 at offset 0, the last ones the last cell at offset 1 |
| Assembly.LocateCellAgrees | assembly/index.ts:159-172 | at integer pixels the cell and offsets are the JavaScript rasterizer's (src/meshGradient.ts:230-239) |
| Assembly.GetPixelColorInRange | assembly/index.ts:150-231 | an in-range palette and influences in [0, 1] give channels in [0, 255] |
| Assembly.GetPixelColor | assembly/index.ts:150-231 | the image's top-left pixel takes the colour of grid point (0, 0) and its bottom-right pixel that of grid point (3, 5) |
| Assembly.UniformGridColor | assembly/index.ts:150-231 | a grid of identical records gives that record's blended colour at every pixel |
| Assembly.GridOf | assembly/index.ts:178-193 | the loads read the 192 bytes at gridPtr and nothing else |
| Assembly.GridFrame | assembly/index.ts:178-193 | memories with the same 192 grid bytes give the same colorIndex and influence at every record |
| Assembly.GetPixelColorFrame | assembly/index.ts:150-231 | the pixel colour depends only on the 192 grid bytes, not on the rest of memory |
| Assembly.Palette | assembly/index.ts:248-258 | the three unpacked palette colours are in range |
| Assembly.SamplePoint | assembly/index.ts:267-282 | without displacement the sample is the pixel; with it, it is clamped to [0, width-1]×[0, height-1] |
| Assembly.SamplePixel | assembly/index.ts:285-286 | `i32(sampleX), i32(sampleY)` is an in-image pixel, and the pixel itself without displacement |
| Assembly.Channel | assembly/index.ts:308-310 | `u8(max(0, min(255, v)))` is the integer part of v in range, 0 below it and 255 above it |
| Assembly.PixelGrain | assembly/index.ts:299-300 | grain is applied exactly when it is enabled, and it is bounded by ±intensity·255 at the undisplaced pixel |
| Assembly.ShadedBytes | assembly/index.ts:299-311 | the stored pixel is four bytes with alpha 255; without grain it is the truncated colour |
| Assembly.DrawableGrid | assembly/index.ts:234-247 | the call's arguments make every pixel computable from the grid bytes |
| Assembly.PixelBytes | assembly/index.ts:265-311 | each pixel is four bytes with alpha 255 |
| Assembly.PlainPixel | assembly/index.ts:265-311 | without displacement or grain, a pixel is its truncated grid colour, opaque |
| Assembly.UniformPixel | assembly/index.ts:265-311 | a grid of identical records with influence 1.0 gives the truncated selected palette colour at every pixel |
| Assembly.UniformRedPixel | assembly/index.ts:265-311 | with palette0 0xFF0000 and every record (0, 1.0), every pixel is (255, 0, 0, 255) |
| Assembly.GridPixels | assembly/index.ts:265-311 | the pixel function is defined at every in-image pixel once the arguments are valid |
| Assembly.ImageOf | assembly/index.ts:265-311 | the image the loops produce is width·height·4 bytes |
| Assembly.PixelsOf | assembly/index.ts:265-311 | the pixels of a valid call are defined at every in-image pixel |
| Assembly.PixelsOfComputes | assembly/index.ts:265-311 | the pixel function is the per-pixel computation of the loops |
| Assembly.StoreImage | assembly/index.ts:307-311 | the stores change no byte outside [outputPtr, outputPtr + width·height·4) |
| Assembly.StoredPixel | assembly/index.ts:307-311 | byte outputPtr + (y·width + x)·4 + c holds channel c of pixel (x, y) |
| Assembly.Render | assembly/index.ts:234-314 | a call leaves the size of memory unchanged |
| Assembly.PixelsOfAt | assembly/index.ts:265-311 | at every in-image pixel, the loops store the pixel computed from the grid bytes |
| Assembly.RenderImage | assembly/index.ts:234-314 | after the call, the output region is exactly the image computed from the grid bytes read before it |
| Assembly.PartialStore | assembly/index.ts:307-311 | storing one pixel extends the rows written so far by that pixel |
| Assembly.PartialOutside | assembly/index.ts:307-311 | at every point of the loop, bytes outside the output region are untouched |
| Assembly.GridKept | assembly/index.ts:265-311 | writing the output never changes the grid bytes, so later pixels read the same grid |
| Assembly.PlanImage | assembly/index.ts:265-313 | the nested loops, run to the end, produce the rendered memory |
| Assembly.Instance.StorePixel | assembly/index.ts:307-311 | the four `store<u8>` write r, g, b, 255 at index to index + 3 and change nothing else |
| Assembly.Instance.DisplacedSample | assembly/index.ts:267-282 | the loop's sample point is the specified one |
| Assembly.Instance.ShadeColor | assembly/index.ts:294-310 | the grain and clamp steps produce the specified bytes |
| Assembly.Instance.ShadePixel | assembly/index.ts:267-310 | one iteration computes the specified pixel from the grid in memory |
| Assembly.Instance.StoreAt | assembly/index.ts:307-311 | the stores of pixel (x, y) at outputPtr + (y·width + x)·4 extend the written prefix by exactly that pixel |
| Assembly.Instance.FillPixel | assembly/index.ts:267-311 | one pass of the inner loop computes pixel (x, y) from the grid and extends the written prefix by it |
| Assembly.Instance.FillRow | assembly/index.ts:266-312 | one row of the loop extends the written rows by one full row |
| Assembly.Instance.FillRows | assembly/index.ts:265-313 | the nested loops write every pixel of the image |
| Assembly.Instance.InitNoise | assembly/index.ts:260-263 | the noise is created, with its permutation table, exactly when displacement is on and no instance exists yet; otherwise it is kept |
| Assembly.Instance.GenerateImageFull | assembly/index.ts:234-314 | the call creates the noise lazily and leaves memory as specified: the image in the output region, everything else unchanged |
| MeshGradientWasm.ColorArgument | src/meshGradientWasm.ts:99-101 | passing a number as a u32 argument gives a 32-bit value, the number itself when it already is one, and 0 for NaN |
| MeshGradientWasm.HexToInt | src/meshGradientWasm.ts:142-152 | a code of six hex digits, after the `#` is stripped and a 3-digit code doubled, converts to a number in [0, 0xFFFFFF] |
| MeshGradientWasm.HexToIntAgrees | src/meshGradientWasm.ts:142-152 | for six hex digits, hexToInt is in [0, 0xFFFFFF] and equals hexToRgb's channels recombined |
| MeshGradientWasm.PaletteAgrees | src/meshGradientWasm.ts:49-51 | for every colour string, the palette colour the AssemblyScript rasterizer unpacks is the one hexToRgb gives |
| MeshGradientWasm.UnpackAgrees | src/meshGradientWasm.ts:49-51 | unpacking the u32 of any number gives the channels `(n >> 16) & 255`, `(n >> 8) & 255`, `n & 255` |
| MeshGradientWasm.AdditionalPages | src/meshGradientWasm.ts:60-62 | ceil((targetEnd - current) / 65536) is at least one page, and grows memory to at least targetEnd but less than one page beyond it |
| MeshGradientWasm.EnsureCapacity | src/meshGradientWasm.ts:58-65 | memory becomes at least targetEnd bytes and less than a page more; old bytes are kept and new ones are 0; memory is unchanged when it is already large enough |
| MeshGradientWasm.ValidGridCovered | src/meshGradient.ts:39-42 | every grid the JavaScript rasterizer accepts is one the host can serialise |
| MeshGradientWasm.Record | src/meshGradientWasm.ts:75-76 | each grid point is serialised to 8 bytes |
| MeshGradientWasm.RowRecords | src/meshGradientWasm.ts:73-78 | a row of n points is 8·n bytes |
| MeshGradientWasm.GridRecords | src/meshGradientWasm.ts:72-79 | n rows are 48·n bytes |
| MeshGradientWasm.GridBytes | src/meshGradientWasm.ts:55 | the serialised grid is gridSize = 192 bytes |
| MeshGradientWasm.RowRecordsSlice | src/meshGradientWasm.ts:73-78 | point col of a row sits at bytes 8·col to 8·col + 8 |
| MeshGradientWasm.GridRecordsSlice | src/meshGradientWasm.ts:72-79 | row r sits at bytes 48·r to 48·r + 48 |
| MeshGradientWasm.RecordAt | src/meshGradientWasm.ts:71-79 | the record of (row, col) starts at byte (row·6 + col)·8 of the grid |
| MeshGradientWasm.ReadBack | src/meshGradientWasm.ts:75-76 | the writer's offset is the reader's record address (assembly/index.ts:178-181); reading the record back gives ToInt32 of the colorIndex and the float32 pattern of the influence |
| MeshGradientWasm.WriteRecord | src/meshGradientWasm.ts:75-76 | writing one point replaces exactly its 8 bytes with its record |
| MeshGradientWasm.SerializeRow | src/meshGradientWasm.ts:73-78 | the inner loop throws TypeError exactly when the row has fewer than 6 points; otherwise it writes the row's 48 bytes and nothing else |
| MeshGradientWasm.SerializeGrid | src/meshGradientWasm.ts:71-79 | the loops throw TypeError exactly when a row is missing or short; otherwise they write the 192 grid bytes at gridPtr and nothing else |
| MeshGradientWasm.OptionSettings | src/meshGradientWasm.ts:87-93 | missing options default to displacement off, frequency 0.0012, amplitude 125, grain off and intensity 0.04; present options are passed through |
| MeshGradientWasm.WasmArguments | src/meshGradientWasm.ts:96-109 | the call receives the image size, the pointers, and the enable flags the JavaScript rasterizer would use |
| MeshGradientWasm.GridBytesReady | src/meshGradientWasm.ts:71-109 | a serialised grid is one generateImageFull can read at every pixel |
| MeshGradientWasm.GridSurvivesGrowth | src/meshGradientWasm.ts:84 | growing memory for the output buffer keeps the serialised grid |
| MeshGradientWasm.WasmCallReady | src/meshGradientWasm.ts:96-109 | the host's arguments satisfy what generateImageFull needs |
| MeshGradientWasm.SerialisedCallable | src/meshGradientWasm.ts:96-109 | once the grid is in memory and the output fits, the call is valid and reads exactly the serialised grid |
| MeshGradientWasm.CallAndCopy | src/meshGradientWasm.ts:96-115 | the copied pixel data is the image computed from the grid in memory before the call |
| MeshGradientWasm.RenderSerialised | src/meshGradientWasm.ts:82-115 | after the output buffer is made to fit, the copied pixel data is the image of the serialised grid |
| MeshGradientWasm.GenerateMeshGradientWasm | src/meshGradientWasm.ts:24-115 | the host fails with TypeError exactly when a grid row is missing or short; otherwise it returns the image generateImageFull computes from the serialised grid and the defaulted options |
| MeshGradientWasm.RedCodeValue | src/meshGradientWasm.ts:142-152 | "#ff0000" converts to 0xFF0000 |
| MeshGradientWasm.RedDigits | src/meshGradientWasm.ts:151 | "ff0000" denotes 0xFF0000 |
| MeshGradientWasm.UniformGridBytes | src/meshGradientWasm.ts:71-79 | serialising a grid of (0, 1.0) points gives identical records (0, 0x3F800000) |
| MeshGradientWasm.UniformRedPixels | assembly/index.ts:265-313 | with palette0 0xFF0000, every record (0, 1.0), and no displacement or grain, the image is (255, 0, 0, 255) repeated |
| MeshGradientWasm.UniformRedImage | src/meshGradientWasm.ts:24-115 | with colour 0 "#ff0000", a grid of (0, 1.0) points, and no displacement or grain, every pixel of the host's output is (255, 0, 0, 255) |

## Left out

- Noise values are a parameter. This covers `createNoise2D` in src/meshGradient.ts:57 and the f32 body of `SimplexNoise.noise2D` in assembly/index.ts:45-101 (skew, falloff, dot products, scaling by 70). Only the permutation-table and index arithmetic of noise2D is modelled.
- IEEE 754 rounding is not modelled. Colours and coordinates are reals, and `Math.round`, `Math.floor`, `i32(...)` and `u8(...)` are exact on them. The double rounding inside the JavaScript grain hash is a parameter. The float32 encoding done by `setFloat32` is a parameter. `load<f32>` is decoded from its bits for finite patterns only. So the AssemblyScript contracts (Assembly.GridReadable) and the host contracts (MeshGradientWasm.FiniteInfluences) require every influence to round to a finite binary32. The source also accepts NaN and ±Infinity influences there; the model says nothing about the image they produce.
- JsText.ParseInt16: the result is the exact digit value. `parseInt` returns a double, so a run of 14 or more significant hex digits may be rounded in the source but not here. Example: the source parses "fffffffffffffff" as 2^60, whose ToInt32 is 0, so hexToRgb gives (0, 0, 0) and hexToInt gives black; the model gives (255, 255, 255). Colour codes of 3 or 6 digits are exact in both.
- MeshGradient.FastNoise: only the range [-1, 1] and the 2×2 block property are stated. The JavaScript hash multiplies doubles past 2^53 (src/meshGradient.ts:174), so it is not the i32 wrap-around hash; Assembly.FastNoise is the bit-exact one.
- Frequency, amplitude and grain intensity reach generateImageFull as f32. That conversion is not modelled, in keeping with the rounding entry above.
- Widths or heights of 1 are excluded from the AssemblyScript and host contracts. There, `f32(x) / f32(width - 1)` is NaN (assembly/index.ts:159-160). The JavaScript model throws TypeError for them, as its grid lookup with NaN does.
- Widths and heights are natural numbers, and colorIndex is an integer. The model does not cover negative or fractional sizes or fractional colour indices.
- MeshGradientWasm.GenerateMeshGradientWasm:
  - it requires the two buffers from `allocateBuffer` not to overlap and the sizes to be int32;
  - it does not state what memory holds after a short-row TypeError;
  - `allocateBuffer`/`__new` and `freeBuffer` are not part of this model (the latter is called at src/meshGradientWasm.ts:133-134 but is not defined in assembly/index.ts).
- `memory.grow` failure, WebAssembly instantiation and its `env` imports (abort, logging, `Math.random` seed) are not modelled (src/meshGradientWasm.ts:24-47).
- JPEG and PNG encoding (`jpeg-js`, `fast-png`) are foreign libraries and are left out. So is the RGBA copy made for the encoder (src/meshGradient.ts:134-140). That copy reproduces the buffer, since every alpha byte is already 255 (MeshGradient.RenderOpaque).
- `performance.now` timings and `console` output are left out.
- `localeCompare` is a comparator parameter. Order independence of the cache key is proved for any strict total collation.
- `getCachedImage` and `setCachedImage` (src/cache.ts:31-66) are network I/O against an R2 bucket and are left out.
- A `null` or non-array grid is not modelled; the grid is always a sequence of rows.
- The grid check at src/meshGradient.ts:39-42 fails with InvalidGrid, the thrown Error. The message text and the `console.error` call are not modelled.

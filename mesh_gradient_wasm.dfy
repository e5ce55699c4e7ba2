/**
 * The host side of the WebAssembly rasterizer (src/meshGradientWasm.ts):
 * colour strings turned into the u32 arguments, linear memory grown to
 * fit, the grid serialised into 24 little-endian records, the option
 * defaults, the call of generateImageFull and the copy of the pixels out
 * of linear memory.
 */
module MeshGradientWasm {
  import opened Wrappers
  import opened JsNumber
  import opened JsText
  import opened LinearMemory
  import MG = MeshGradient
  import AS = Assembly
  import Binary32

  // --------------------------------------------------------------- hexToInt

  /**
   * hexToInt: `parseInt(hex, 16)` of the code without its `#`, a 3-digit code
   * doubled digit by digit; None is NaN. A code of six hex digits gives a
   * 24-bit number.
   */
  function HexToInt(hex: JsString): (n: Option<int>)
    ensures |MG.NormalizeHex(hex)| == 6 && AllDigits(MG.NormalizeHex(hex), 16) ==> n.Some? && 0 <= n.value < 0x100_0000
  {
    var digits := MG.NormalizeHex(hex);
    assert |digits| == 6 && AllDigits(digits, 16) ==> ParseInt16(digits) == Some(DigitsValue(digits, 16)) && DigitsValue(digits, 16) < 0x100_0000 by {
      if |digits| == 6 && AllDigits(digits, 16) {
        ParseSixHexDigits(digits);
      }
    }
    ParseInt16(digits)
  }

  /** The u32 that generateImageFull receives for a colour: the number converted by ToInt32 (NaN becomes 0), read as unsigned. */
  function ColorArgument(n: Option<int>): (c: int)
    ensures IsUint32(c)
    ensures n.Some? && IsUint32(n.value) ==> c == n.value
    ensures n.None? ==> c == 0
  {
    ToUint32(n.GetOr(0))
  }

  /** For a valid 6-digit code, hexToInt is a 24-bit number, and it is hexToRgb's channels recombined. */
  lemma HexToIntAgrees(hex: JsString)
    requires |MG.NormalizeHex(hex)| == 6 && AllDigits(MG.NormalizeHex(hex), 16)
    ensures HexToInt(hex).Some? && 0 <= HexToInt(hex).value < 0x100_0000
    ensures HexToInt(hex).value == Recombined(MG.HexToRgb(hex))
  {
    var digits := MG.NormalizeHex(hex);
    ParseSixHexDigits(digits);
    MG.HexToRgbSixDigits(hex);
  }

  /** A colour's channels as the number 0xRRGGBB. */
  function Recombined(c: MG.RGB): int {
    c.r * 0x1_0000 + c.g * 0x100 + c.b
  }

  /**
   * For every colour string, valid or not, the palette entry the linear-memory
   * rasterizer unpacks from hexToInt is the colour the JS rasterizer gets
   * from hexToRgb.
   */
  lemma PaletteAgrees(hex: JsString)
    ensures AS.UnpackColor(ColorArgument(HexToInt(hex))) == MG.HexToRgb(hex)
  {
    UnpackAgrees(ParseInt16(MG.NormalizeHex(hex)).GetOr(0));
  }

  /** Unpacking ToUint32(num) gives the channels `(num >> 16) & 255`, `(num >> 8) & 255` and `num & 255`. */
  lemma UnpackAgrees(num: int)
    ensures AS.UnpackColor(ToUint32(num)) ==
      MG.RGB(LowByte(ShiftRight(num, 16)), LowByte(ShiftRight(num, 8)), LowByte(num))
  {
    Pow2Values();
    var u, s := ToUint32(num), ToInt32(num);
    ToInt32OfInt32(s / 0x1_0000);
    ToInt32OfInt32(s / 0x100);
    ShiftedByte(u, s, 0x1_0000, 0x100);
    ShiftedByte(u, s, 0x100, 0x1_0000);
    ShiftedByte(u, s, 1, 0x100_0000);
  }

  /** A quotient of s and of s + 2^32 by a divisor of 2^24 has the same low byte. */
  lemma ShiftedByte(u: int, s: int, d: int, k: int)
    requires IsUint32(u) && (s == u || s == u - TwoTo32) && d > 0 && k > 0 && d * k == 0x100_0000
    ensures (s / d) % 256 == (u / d) % 256
  {
    if s != u {
      var q, r := u / d, u % d;
      assert u == q * d + r;
      assert TwoTo32 == (256 * k) * d;
      assert s == (q - 256 * k) * d + r;
      DivModUnique(s, d, q - 256 * k, r);
      DivModUnique(q - 256 * k, 256, q / 256 - k, q % 256);
    }
  }

  // ---------------------------------------------------------- ensureCapacity

  /** `Math.ceil((targetEnd - current) / pageSize)`: the fewest 64 KiB pages that reach targetEnd. */
  function AdditionalPages(current: nat, targetEnd: nat): (pages: nat)
    requires targetEnd > current
    ensures pages >= 1
    ensures targetEnd <= current + pages * PageSize < targetEnd + PageSize
  {
    var d := targetEnd - current;
    CeilOfQuotient(d, PageSize);
    var q := (d + PageSize - 1) / PageSize;
    DivModUnique(d + PageSize - 1, PageSize, q, (d + PageSize - 1) % PageSize);
    Ceil(d as real / PageSize as real)
  }

  /** ensureCapacity: grow linear memory by whole pages until targetEnd bytes are addressable. */
  method EnsureCapacity(memory: Memory, targetEnd: nat)
    requires memory.Valid()
    modifies memory
    ensures memory.Valid()
    ensures |old(memory.bytes)| <= |memory.bytes| && memory.bytes[..|old(memory.bytes)|] == old(memory.bytes)
    ensures forall i :: |old(memory.bytes)| <= i < |memory.bytes| ==> memory.bytes[i] == 0
    ensures targetEnd <= |old(memory.bytes)| ==> memory.bytes == old(memory.bytes)
    ensures targetEnd > |old(memory.bytes)| ==> targetEnd <= |memory.bytes| < targetEnd + PageSize
  {
    var current := memory.ByteLength();
    if targetEnd > current {
      var additionalPages := AdditionalPages(current, targetEnd);
      var _ := memory.Grow(additionalPages);
    }
  }

  // ------------------------------------------------------ grid serialisation

  /**
   * The float32 bit pattern `setFloat32` writes for a number: the number
   * rounded to binary32. Rounding is left to this parameter.
   */
  type Float32Rounding = real -> Bits32

  type Bits32 = n: int | IsUint32(n)

  /** `grid[row][col]` is defined for rows 0 .. 3 and columns 0 .. 5: the serialising loop reaches its end. */
  predicate CoversGrid(grid: seq<seq<MG.GridPoint>>) {
    |grid| >= 4 && forall row :: 0 <= row < 4 ==> |grid[row]| >= 6
  }

  /** The 6 x 4 grids the JavaScript renderer accepts are covered. */
  lemma ValidGridCovered(grid: seq<seq<MG.GridPoint>>)
    requires MG.ValidGrid(grid)
    ensures CoversGrid(grid)
  {
  }

  /** The record of one grid point: the colour index as a little-endian int32, then the influence's binary32 bits. */
  function Record(point: MG.GridPoint, f32Bits: Float32Rounding): (r: seq<Byte>)
    ensures |r| == 8
  {
    Le32(ToUint32(point.colorIndex)) + Le32(f32Bits(point.influence))
  }

  /** The records of the first n points of a row, back to back. */
  function RowRecords(points: seq<MG.GridPoint>, n: nat, f32Bits: Float32Rounding): (r: seq<Byte>)
    requires n <= |points|
    ensures |r| == 8 * n
  {
    if n == 0 then [] else RowRecords(points, n - 1, f32Bits) + Record(points[n - 1], f32Bits)
  }

  /** The records of the first 6 points of each of the first n rows, row after row. */
  function GridRecords(grid: seq<seq<MG.GridPoint>>, n: nat, f32Bits: Float32Rounding): (r: seq<Byte>)
    requires n <= |grid| && forall row :: 0 <= row < n ==> |grid[row]| >= 6
    ensures |r| == 48 * n
  {
    if n == 0 then [] else GridRecords(grid, n - 1, f32Bits) + RowRecords(grid[n - 1], 6, f32Bits)
  }

  /** The 192 bytes of the serialised grid. */
  function GridBytes(grid: seq<seq<MG.GridPoint>>, f32Bits: Float32Rounding): (r: seq<Byte>)
    requires CoversGrid(grid)
    ensures |r| == AS.GridSize
  {
    GridRecords(grid, 4, f32Bits)
  }

  /** Column col's record occupies bytes 8 col .. 8 col + 7 of a row's records. */
  lemma {:induction false} RowRecordsSlice(points: seq<MG.GridPoint>, n: nat, col: nat, f32Bits: Float32Rounding)
    requires col < n <= |points|
    ensures RowRecords(points, n, f32Bits)[8 * col..8 * col + 8] == Record(points[col], f32Bits)
  {
    if col < n - 1 {
      RowRecordsSlice(points, n - 1, col, f32Bits);
      assert RowRecords(points, n, f32Bits)[8 * col..8 * col + 8] == RowRecords(points, n - 1, f32Bits)[8 * col..8 * col + 8];
    }
  }

  /** Row row's records occupy bytes 48 row .. 48 row + 47 of the grid's records. */
  lemma {:induction false} GridRecordsSlice(grid: seq<seq<MG.GridPoint>>, n: nat, row: nat, f32Bits: Float32Rounding)
    requires row < n <= |grid| && forall r :: 0 <= r < n ==> |grid[r]| >= 6
    ensures GridRecords(grid, n, f32Bits)[48 * row..48 * row + 48] == RowRecords(grid[row], 6, f32Bits)
  {
    if row < n - 1 {
      GridRecordsSlice(grid, n - 1, row, f32Bits);
      assert GridRecords(grid, n, f32Bits)[48 * row..48 * row + 48] == GridRecords(grid, n - 1, f32Bits)[48 * row..48 * row + 48];
    }
  }

  /** A slice of bytes that hold g at `start` is the same slice of g. */
  lemma SliceWithin(bytes: seq<Byte>, start: nat, g: seq<Byte>, i: nat, j: nat)
    requires start + |g| <= |bytes| && bytes[start..start + |g|] == g && i <= j <= |g|
    ensures bytes[start + i..start + j] == g[i..j]
  {
    forall m | 0 <= m < j - i
      ensures bytes[start + i..start + j][m] == g[i..j][m]
    {
      assert bytes[start + i + m] == bytes[start..start + |g|][i + m];
    }
  }

  /** The records of row `row` sit 48 row bytes into the serialised grid. */
  lemma RowAt(bytes: seq<Byte>, gridPtr: nat, grid: seq<seq<MG.GridPoint>>, f32Bits: Float32Rounding, row: nat)
    requires CoversGrid(grid) && gridPtr + AS.GridSize <= |bytes|
    requires bytes[gridPtr..gridPtr + AS.GridSize] == GridBytes(grid, f32Bits)
    requires row < 4
    ensures bytes[gridPtr + 48 * row..gridPtr + 48 * row + 48] == RowRecords(grid[row], 6, f32Bits)
  {
    GridRecordsSlice(grid, 4, row, f32Bits);
    SliceWithin(bytes, gridPtr, GridBytes(grid, f32Bits), 48 * row, 48 * row + 48);
  }

  /** The record of (row, col) sits 48 row + 8 col bytes into the serialised grid. */
  lemma RecordAt(bytes: seq<Byte>, gridPtr: nat, grid: seq<seq<MG.GridPoint>>, f32Bits: Float32Rounding, row: nat, column: nat)
    requires CoversGrid(grid) && gridPtr + AS.GridSize <= |bytes|
    requires bytes[gridPtr..gridPtr + AS.GridSize] == GridBytes(grid, f32Bits)
    requires row < 4 && column < 6
    ensures column < |grid[row]|
    ensures bytes[gridPtr + 48 * row + 8 * column..gridPtr + 48 * row + 8 * column + 8] == Record(grid[row][column], f32Bits)
  {
    RowAt(bytes, gridPtr, grid, f32Bits, row);
    RowRecordsSlice(grid[row], 6, column, f32Bits);
    SliceWithin(bytes, gridPtr + 48 * row, RowRecords(grid[row], 6, f32Bits), 8 * column, 8 * column + 8);
  }

  /**
   * The writer's offset for (row, col) is the reader's record address
   * minus gridPtr, so the reader gets back what was written: the colour
   * index through ToInt32 and the influence's bits.
   */
  lemma ReadBack(bytes: seq<Byte>, gridPtr: nat, grid: seq<seq<MG.GridPoint>>, f32Bits: Float32Rounding, row: int, column: int)
    requires CoversGrid(grid) && gridPtr + AS.GridSize <= |bytes|
    requires bytes[gridPtr..gridPtr + AS.GridSize] == GridBytes(grid, f32Bits)
    requires 0 <= row < 4 && 0 <= column < 6
    ensures AS.RecordAddress(gridPtr, row, column) == gridPtr + 48 * row + 8 * column
    ensures row < |grid| && column < |grid[row]|
    ensures AS.ColorIndexAt(bytes, gridPtr, row, column) == ToInt32(grid[row][column].colorIndex)
    ensures AS.InfluenceBits(bytes, gridPtr, row, column) == f32Bits(grid[row][column].influence)
  {
    RecordAt(bytes, gridPtr, grid, f32Bits, row, column);
    var point := grid[row][column];
    var address := gridPtr + 48 * row + 8 * column;
    SliceWithin(bytes, address, Record(point, f32Bits), 0, 4);
    SliceWithin(bytes, address, Record(point, f32Bits), 4, 8);
    LoadLe32(bytes, address, ToUint32(point.colorIndex));
    LoadLe32(bytes, address + 4, f32Bits(point.influence));
  }

  /** The two DataView stores of one point's record at `address`: little-endian colour index, then influence. */
  method WriteRecord(memory: Memory, address: nat, point: MG.GridPoint, f32Bits: Float32Rounding)
    requires address + 8 <= |memory.bytes|
    modifies memory
    ensures memory.bytes == old(memory.bytes)[..address] + Record(point, f32Bits) + old(memory.bytes)[address + 8..]
  {
    ghost var before := memory.bytes;
    memory.StoreLe32(address, ToUint32(point.colorIndex));
    memory.StoreLe32(address + 4, f32Bits(point.influence));
    assert memory.bytes[..address] == before[..address];
    assert memory.bytes[address + 8..] == before[address + 8..];
  }

  /** Bytes written just after the part already written at `start` extend that part. */
  lemma Extend(before: seq<Byte>, start: nat, done: seq<Byte>, piece: seq<Byte>, bytes: seq<Byte>, after: seq<Byte>)
    requires start + |done| + |piece| <= |before|
    requires bytes == before[..start] + done + before[start + |done|..]
    requires after == bytes[..start + |done|] + piece + bytes[start + |done| + |piece|..]
    ensures after == before[..start] + (done + piece) + before[start + |done| + |piece|..]
  {
    assert bytes[..start + |done|] == before[..start] + done;
    assert bytes[start + |done| + |piece|..] == before[start + |done| + |piece|..];
  }

  /**
   * The column loop for one row: the records of its six points from
   * `address` on, or the TypeError of `point.colorIndex` on a missing point.
   */
  method SerializeRow(memory: Memory, address: nat, points: seq<MG.GridPoint>, f32Bits: Float32Rounding)
    returns (error: Option<MG.Error>)
    requires address + 48 <= |memory.bytes|
    modifies memory
    ensures |memory.bytes| == |old(memory.bytes)|
    ensures error.None? <==> |points| >= 6
    ensures error.Some? ==> error.value == MG.TypeError
    ensures error.None? ==>
      memory.bytes == old(memory.bytes)[..address] + RowRecords(points, 6, f32Bits) + old(memory.bytes)[address + 48..]
  {
    ghost var before := memory.bytes;
    var col := 0;
    while col < 6
      invariant 0 <= col <= 6 && col <= |points|
      invariant memory.bytes == before[..address] + RowRecords(points, col, f32Bits) + before[address + 8 * col..]
    {
      if col >= |points| {
        return Some(MG.TypeError);
      }
      ghost var bytes := memory.bytes;
      WriteRecord(memory, address + 8 * col, points[col], f32Bits);
      Extend(before, address, RowRecords(points, col, f32Bits), Record(points[col], f32Bits), bytes, memory.bytes);
      col := col + 1;
    }
    return None;
  }

  /**
   * The serialising loop: rows 0 .. 3, columns 0 .. 5, one 8-byte record
   * each at `offset`, which advances by 8 and ends at 192. A missing row
   * fails at its first point, before anything of it is written.
   */
  method SerializeGrid(memory: Memory, gridPtr: nat, grid: seq<seq<MG.GridPoint>>, f32Bits: Float32Rounding)
    returns (error: Option<MG.Error>)
    requires gridPtr + AS.GridSize <= |memory.bytes|
    modifies memory
    ensures |memory.bytes| == |old(memory.bytes)|
    ensures error.None? <==> CoversGrid(grid)
    ensures error.Some? ==> error.value == MG.TypeError
    ensures error.None? ==>
      memory.bytes == old(memory.bytes)[..gridPtr] + GridBytes(grid, f32Bits) + old(memory.bytes)[gridPtr + AS.GridSize..]
  {
    ghost var before := memory.bytes;
    var offset := 0;
    var row := 0;
    while row < 4
      invariant 0 <= row <= 4 && offset == 48 * row && row <= |grid|
      invariant forall r :: 0 <= r < row ==> |grid[r]| >= 6
      invariant memory.bytes == before[..gridPtr] + GridRecords(grid, row, f32Bits) + before[gridPtr + offset..]
    {
      if row >= |grid| {
        // `grid[row][0]` reads a property of undefined
        return Some(MG.TypeError);
      }
      ghost var bytes := memory.bytes;
      error := SerializeRow(memory, gridPtr + offset, grid[row], f32Bits);
      if error.Some? {
        return;
      }
      Extend(before, gridPtr, GridRecords(grid, row, f32Bits), RowRecords(grid[row], 6, f32Bits), bytes, memory.bytes);
      offset := offset + 48;
      row := row + 1;
    }
    return None;
  }

  // ----------------------------------------------------------- the call

  /** The displacement and grain arguments generateImageFull receives. */
  datatype Settings = Settings(
    displacementEnabled: bool, displacementFreq: real, displacementAmp: real,
    grainEnabled: bool, grainIntensity: real)

  const DefaultFrequency: real := 0.0012
  const DefaultAmplitude: real := 125.0
  const DefaultIntensity: real := 0.04

  /** The `??` defaults: a missing option is disabled, with frequency 0.0012, amplitude 125 and intensity 0.04. */
  function OptionSettings(displacement: Option<MG.Displacement>, grain: Option<MG.Grain>): (s: Settings)
    ensures s.displacementEnabled <==> displacement.Some? && displacement.value.enabled
    ensures s.grainEnabled <==> grain.Some? && grain.value.enabled
    ensures displacement.None? ==> s.displacementFreq == DefaultFrequency && s.displacementAmp == DefaultAmplitude
    ensures displacement.Some? ==>
      s.displacementFreq == displacement.value.frequency && s.displacementAmp == displacement.value.amplitude
    ensures grain.None? ==> s.grainIntensity == DefaultIntensity
    ensures grain.Some? ==> s.grainIntensity == grain.value.intensity
  {
    match (displacement, grain)
    case (None, None) => Settings(false, DefaultFrequency, DefaultAmplitude, false, DefaultIntensity)
    case (Some(d), None) => Settings(d.enabled, d.frequency, d.amplitude, false, DefaultIntensity)
    case (None, Some(g)) => Settings(false, DefaultFrequency, DefaultAmplitude, g.enabled, g.intensity)
    case (Some(d), Some(g)) => Settings(d.enabled, d.frequency, d.amplitude, g.enabled, g.intensity)
  }

  /** The twelve arguments of the generateImageFull call. */
  function WasmArguments(opts: MG.Options, gridPtr: nat, outputPtr: nat): (a: AS.Arguments)
    requires |opts.colors| == 3
    ensures AS.ColorsOk(a) && a.width == opts.width && a.height == opts.height
    ensures a.gridPtr == gridPtr && a.outputPtr == outputPtr
    ensures a.displacementEnabled == MG.DisplacementOn(opts) && a.grainEnabled == MG.GrainOn(opts)
  {
    var s := OptionSettings(opts.displacement, opts.grain);
    AS.Arguments(
      opts.width, opts.height,
      ColorArgument(HexToInt(opts.colors[0])), ColorArgument(HexToInt(opts.colors[1])), ColorArgument(HexToInt(opts.colors[2])),
      gridPtr,
      s.displacementEnabled, s.displacementFreq, s.displacementAmp,
      s.grainEnabled, s.grainIntensity,
      outputPtr)
  }

  /** Every influence present in the grid rounds to a finite binary32 value. */
  ghost predicate FiniteInfluences(grid: seq<seq<MG.GridPoint>>, f32Bits: Float32Rounding) {
    forall row, col :: 0 <= row < |grid| && 0 <= col < |grid[row]| ==> Binary32.IsFinite(f32Bits(grid[row][col].influence))
  }

  /** The serialised grid is ready for the pixel computation. */
  lemma GridBytesReady(opts: MG.Options, f32Bits: Float32Rounding, gridPtr: nat, outputPtr: nat)
    requires |opts.colors| == 3 && CoversGrid(opts.grid) && FiniteInfluences(opts.grid, f32Bits)
    requires opts.width >= 2 && opts.height >= 2
    ensures AS.PixelReady(WasmArguments(opts, gridPtr, outputPtr), GridBytes(opts.grid, f32Bits))
  {
    var g := GridBytes(opts.grid, f32Bits);
    assert g[0..AS.GridSize] == g;
    forall row, column | 0 <= row < 4 && 0 <= column < 6
      ensures Binary32.IsFinite(AS.InfluenceBits(g, 0, row, column))
    {
      ReadBack(g, 0, opts.grid, f32Bits, row, column);
    }
  }

  /** A grid written at gridPtr is kept by a later growth of memory. */
  lemma GridSurvivesGrowth(before: seq<Byte>, after: seq<Byte>, gridPtr: nat, g: seq<Byte>)
    requires gridPtr + |g| <= |before| <= |after| && after[..|before|] == before
    requires before[gridPtr..gridPtr + |g|] == g
    ensures after[gridPtr..gridPtr + |g|] == g
  {
    assert after[gridPtr..gridPtr + |g|] == after[..|before|][gridPtr..gridPtr + |g|];
  }

  /** The image's byte offsets fit an i32 and the image is empty or at least 2 x 2 pixels. */
  predicate ImageSizeOk(opts: MG.Options) {
    opts.width * opts.height * 4 < TwoTo31 && opts.width < TwoTo31 && opts.height < TwoTo31 &&
    (opts.width == 0 || opts.height == 0 || (opts.width >= 2 && opts.height >= 2))
  }

  /** The grid and the image buffer do not overlap. */
  predicate Disjoint(opts: MG.Options, gridPtr: nat, outputPtr: nat) {
    gridPtr + AS.GridSize <= outputPtr || outputPtr + opts.width * opts.height * 4 <= gridPtr
  }

  /** Arguments and grid bytes generateImageFull can be called with once the grid is at gridPtr and memory is grown. */
  predicate CallReady(a: AS.Arguments, grid: seq<Byte>) {
    AS.ColorsOk(a) && a.width < TwoTo31 && a.height < TwoTo31 && a.width * a.height * 4 < TwoTo31 &&
    |grid| == AS.GridSize &&
    (a.width == 0 || a.height == 0 || AS.PixelReady(a, grid)) &&
    (a.gridPtr + AS.GridSize <= a.outputPtr || a.outputPtr + a.width * a.height * 4 <= a.gridPtr)
  }

  /** The call's arguments and the serialised grid are ready. */
  lemma WasmCallReady(opts: MG.Options, f32Bits: Float32Rounding, gridPtr: nat, outputPtr: nat)
    requires |opts.colors| == 3 && ImageSizeOk(opts) && FiniteInfluences(opts.grid, f32Bits)
    requires Disjoint(opts, gridPtr, outputPtr) && CoversGrid(opts.grid)
    ensures CallReady(WasmArguments(opts, gridPtr, outputPtr), GridBytes(opts.grid, f32Bits))
  {
    if opts.width >= 2 && opts.height >= 2 {
      GridBytesReady(opts, f32Bits, gridPtr, outputPtr);
    }
  }

  /** Memory holding the grid at gridPtr and room for the image meets generateImageFull's demands. */
  lemma SerialisedCallable(a: AS.Arguments, grid: seq<Byte>, bytes: seq<Byte>)
    requires CallReady(a, grid)
    requires a.gridPtr + AS.GridSize <= |bytes| && a.outputPtr + a.width * a.height * 4 <= |bytes|
    requires bytes[a.gridPtr..a.gridPtr + AS.GridSize] == grid
    ensures AS.Callable(a, bytes)
    ensures AS.GridInMemory(bytes, a.gridPtr) && AS.GridOf(bytes, a.gridPtr) == grid
  {
    if a.width >= 2 && a.height >= 2 {
      AS.GridFrame(grid, 0, bytes, a.gridPtr);
    }
  }

  /**
   * The generateImageFull call and the copy of its output: the bytes at
   * outputPtr .. outputPtr + width * height * 4 afterwards are the image
   * drawn from the grid bytes memory held before the call.
   */
  method CallAndCopy(instance: AS.Instance, a: AS.Arguments, noise2D: MG.Noise2D) returns (pixelData: seq<Byte>)
    requires AS.Callable(a, instance.memory.bytes) && AS.GridInMemory(instance.memory.bytes, a.gridPtr)
    modifies instance, instance.memory
    ensures AS.PixelReady(a, AS.GridOf(old(instance.memory.bytes), a.gridPtr)) || a.width == 0 || a.height == 0
    ensures pixelData == AS.ImageOf(a, AS.GridOf(old(instance.memory.bytes), a.gridPtr), noise2D)
  {
    AS.RenderImage(a, instance.memory.bytes, noise2D);
    instance.GenerateImageFull(a, noise2D);
    pixelData := instance.memory.bytes[a.outputPtr..a.outputPtr + a.width * a.height * 4];
  }

  /**
   * The second half of the call, once the grid is in memory: memory grown
   * to hold width * height * 4 bytes at outputPtr, generateImageFull
   * called, and the image copied out.
   */
  method RenderSerialised(instance: AS.Instance, a: AS.Arguments, ghost grid: seq<Byte>, noise2D: MG.Noise2D)
    returns (pixelData: seq<Byte>)
    requires instance.memory.Valid() && CallReady(a, grid)
    requires a.gridPtr + AS.GridSize <= |instance.memory.bytes|
    requires instance.memory.bytes[a.gridPtr..a.gridPtr + AS.GridSize] == grid
    modifies instance, instance.memory
    ensures pixelData == AS.ImageOf(a, grid, noise2D)
  {
    var memory := instance.memory;
    ghost var serialised := memory.bytes;
    var bufferSize := a.width * a.height * 4;
    EnsureCapacity(memory, a.outputPtr + bufferSize);
    GridSurvivesGrowth(serialised, memory.bytes, a.gridPtr, grid);
    SerialisedCallable(a, grid, memory.bytes);
    pixelData := CallAndCopy(instance, a, noise2D);
  }

  /**
   * generateMeshGradientJPEGWasm up to the encoder: the colours converted,
   * memory grown to hold the grid at gridPtr, the grid serialised, the
   * option defaults applied, and the image rendered into linear memory and
   * copied out; a grid without 4 rows of 6 points fails with the TypeError
   * of reading a missing point.
   */
  method GenerateMeshGradientWasm(instance: AS.Instance, opts: MG.Options, gridPtr: nat, outputPtr: nat,
                                  f32Bits: Float32Rounding, noise2D: MG.Noise2D)
    returns (result: Result<seq<Byte>, MG.Error>)
    requires instance.memory.Valid()
    requires |opts.colors| == 3 && ImageSizeOk(opts) && FiniteInfluences(opts.grid, f32Bits)
    requires Disjoint(opts, gridPtr, outputPtr)
    modifies instance, instance.memory
    ensures result.Failure? <==> !CoversGrid(opts.grid)
    ensures result.Failure? ==> result.error == MG.TypeError
    ensures result.Success? ==>
      && CallReady(WasmArguments(opts, gridPtr, outputPtr), GridBytes(opts.grid, f32Bits))
      && result.value == AS.ImageOf(WasmArguments(opts, gridPtr, outputPtr), GridBytes(opts.grid, f32Bits), noise2D)
  {
    EnsureCapacity(instance.memory, gridPtr + AS.GridSize);
    var error := SerializeGrid(instance.memory, gridPtr, opts.grid, f32Bits);
    if error.Some? {
      return Failure(error.value);
    }
    ghost var grid := GridBytes(opts.grid, f32Bits);
    assert instance.memory.bytes[gridPtr..gridPtr + AS.GridSize] == grid;
    var a := WasmArguments(opts, gridPtr, outputPtr);
    WasmCallReady(opts, f32Bits, gridPtr, outputPtr);
    var pixelData := RenderSerialised(instance, a, grid, noise2D);
    return Success(pixelData);
  }

  // ------------------------------------------------------ a uniform red grid

  /** The colour code is "#ff0000". */
  predicate IsRedCode(code: JsString) {
    |code| == 7 && code[0] == MG.NumberSign && code[1] == code[2] == 'f' as int &&
    code[3] == code[4] == code[5] == code[6] == '0' as int
  }

  /** hexToInt("#ff0000") is 0xFF0000. */
  lemma RedCodeValue(code: JsString)
    requires IsRedCode(code)
    ensures HexToInt(code) == Some(0xFF_0000)
  {
    var digits := MG.NormalizeHex(code);
    assert digits == code[1..];
    assert AllDigits(digits, 16);
    ParseSixHexDigits(digits);
    assert DigitsValue(digits, 16) == 0xFF_0000 by {
      RedDigits(digits);
    }
  }

  /** The digits "ff0000" denote 0xFF0000. */
  lemma RedDigits(digits: JsString)
    requires |digits| == 6 && digits[0] == digits[1] == 'f' as int
    requires digits[2] == digits[3] == digits[4] == digits[5] == '0' as int
    ensures AllDigits(digits, 16) && DigitsValue(digits, 16) == 0xFF_0000
  {
    assert AllDigits(digits[..2], 16) && DigitsValue(digits[..2], 16) == 0xFF by {
      DigitsValueAppend([], 'f' as int, 16);
      assert [] + ['f' as int] == digits[..1];
      DigitsValueAppend(digits[..1], 'f' as int, 16);
      assert digits[..1] + ['f' as int] == digits[..2];
    }
    ZeroDigits(digits, 2);
    ZeroDigits(digits, 3);
    ZeroDigits(digits, 4);
    ZeroDigits(digits, 5);
    assert digits[..6] == digits;
  }

  /** A 0 digit after the first k digits multiplies their value by 16. */
  lemma ZeroDigits(digits: JsString, k: nat)
    requires k < |digits| && AllDigits(digits[..k], 16) && digits[k] == '0' as int
    ensures AllDigits(digits[..k + 1], 16)
    ensures DigitsValue(digits[..k + 1], 16) == DigitsValue(digits[..k], 16) * 16
  {
    DigitsValueAppend(digits[..k], digits[k], 16);
    assert digits[..k] + [digits[k]] == digits[..k + 1];
  }

  /** A grid whose every point is (0, 1.0). */
  predicate UniformPoints(grid: seq<seq<MG.GridPoint>>) {
    forall row, col :: 0 <= row < |grid| && 0 <= col < |grid[row]| ==> grid[row][col] == MG.GridPoint(0, 1.0)
  }

  /** Serialising a uniform (0, 1.0) grid gives 24 records of colour index 0 and the bits of 1.0. */
  lemma UniformGridBytes(grid: seq<seq<MG.GridPoint>>, f32Bits: Float32Rounding)
    requires CoversGrid(grid) && UniformPoints(grid) && f32Bits(1.0) == 0x3F80_0000
    ensures FiniteInfluences(grid, f32Bits)
    ensures AS.GridReadable(GridBytes(grid, f32Bits), 0)
    ensures AS.UniformGrid(GridBytes(grid, f32Bits), 0, 0, 0x3F80_0000)
  {
    Binary32.KnownValues();
    var g := GridBytes(grid, f32Bits);
    assert g[0..AS.GridSize] == g;
    forall row, column | 0 <= row < 4 && 0 <= column < 6
      ensures AS.ColorIndexAt(g, 0, row, column) == 0 && AS.InfluenceBits(g, 0, row, column) == 0x3F80_0000
    {
      ReadBack(g, 0, grid, f32Bits, row, column);
      ToInt32OfInt32(0);
    }
  }

  /**
   * The red-image case: a grid whose every point is (0, 1.0), "#ff0000"
   * as the first colour and neither displacement nor grain give an image
   * whose every pixel is opaque red, 255, 0, 0, 255.
   */
  lemma UniformRedImage(opts: MG.Options, gridPtr: nat, outputPtr: nat, f32Bits: Float32Rounding, noise2D: MG.Noise2D)
    requires |opts.colors| == 3 && IsRedCode(opts.colors[0])
    requires opts.width >= 2 && opts.height >= 2
    requires CoversGrid(opts.grid) && UniformPoints(opts.grid) && f32Bits(1.0) == 0x3F80_0000
    requires !MG.DisplacementOn(opts) && !MG.GrainOn(opts)
    ensures FiniteInfluences(opts.grid, f32Bits)
    ensures var a, g := WasmArguments(opts, gridPtr, outputPtr), GridBytes(opts.grid, f32Bits);
      AS.PixelReady(a, g) &&
      forall i :: 0 <= i < |AS.ImageOf(a, g, noise2D)| ==> AS.ImageOf(a, g, noise2D)[i] == [255, 0, 0, 255][i % 4]
  {
    UniformGridBytes(opts.grid, f32Bits);
    RedCodeValue(opts.colors[0]);
    UniformRedPixels(WasmArguments(opts, gridPtr, outputPtr), GridBytes(opts.grid, f32Bits), noise2D);
  }

  /** On a uniform grid of colour index 0 and influence 1.0, red as colour 0 and no displacement or grain, every pixel is red. */
  lemma UniformRedPixels(a: AS.Arguments, g: seq<Byte>, noise2D: MG.Noise2D)
    requires AS.PixelReady(a, g) && AS.UniformGrid(g, 0, 0, 0x3F80_0000)
    requires !a.displacementEnabled && !a.grainEnabled && a.color0 == 0xFF_0000
    ensures AS.ImageOf(a, g, noise2D) == MG.Repeat([255, 0, 0, 255], a.width * a.height)
  {
    var pixels := AS.GridPixels(a, g, noise2D);
    forall x: nat, y: nat | x < a.width && y < a.height
      ensures pixels(x, y) == Success([255, 0, 0, 255])
    {
      AS.UniformRedPixel(x, y, a, g, noise2D);
    }
    MG.ConstantImage(pixels, a.width, a.height, [255, 0, 0, 255]);
  }
}

/**
 * The AssemblyScript rasterizer (assembly/index.ts): the same mesh
 * gradient computed over WebAssembly linear memory. The palette arrives
 * as three 0xRRGGBB integers, the grid as 24 eight-byte records at
 * `gridPtr`, and the pixels are stored byte by byte at `outputPtr`.
 *
 * f32 arithmetic is modelled over reals; the integer parts (truncations,
 * the i32 hash, record addresses, byte stores) are exact.
 */
module Assembly {
  import opened Wrappers
  import opened JsNumber
  import opened LinearMemory
  import Binary32
  import MG = MeshGradient

  // ------------------------------------------------------------ SimplexNoise

  /** The permutation the table is built from. */
  const P: seq<Byte> := [
    151, 160, 137, 91, 90, 15, 131, 13, 201, 95, 96, 53, 194, 233, 7, 225,
    140, 36, 103, 30, 69, 142, 8, 99, 37, 240, 21, 10, 23, 190, 6, 148,
    247, 120, 234, 75, 0, 26, 197, 62, 94, 252, 219, 203, 117, 35, 11, 32,
    57, 177, 33, 88, 237, 149, 56, 87, 174, 20, 125, 136, 171, 168, 68, 175,
    74, 165, 71, 134, 139, 48, 27, 166, 77, 146, 158, 231, 83, 111, 229, 122,
    60, 211, 133, 230, 220, 105, 92, 41, 55, 46, 245, 40, 244, 102, 143, 54,
    65, 25, 63, 161, 1, 216, 80, 73, 209, 76, 132, 187, 208, 89, 18, 169,
    200, 196, 135, 130, 116, 188, 159, 86, 164, 100, 109, 198, 173, 186, 3, 64,
    52, 217, 226, 250, 124, 123, 5, 202, 38, 147, 118, 126, 255, 82, 85, 212,
    207, 206, 59, 227, 47, 16, 58, 17, 182, 189, 28, 42, 223, 183, 170, 213,
    119, 248, 152, 2, 44, 154, 163, 70, 221, 153, 101, 155, 167, 43, 172, 9,
    129, 22, 39, 253, 19, 98, 108, 110, 79, 113, 224, 232, 178, 185, 112, 104,
    218, 246, 97, 228, 251, 34, 242, 193, 238, 210, 144, 12, 191, 179, 162, 241,
    81, 51, 145, 235, 249, 14, 239, 107, 49, 192, 214, 31, 181, 199, 106, 157,
    184, 84, 204, 176, 115, 121, 50, 45, 127, 4, 150, 254, 138, 236, 205, 93,
    222, 114, 67, 29, 24, 72, 243, 141, 128, 195, 78, 66, 215, 61, 156, 180
  ]

  /** The twelve gradient directions. */
  const Grad3: seq<seq<int>> := [
    [1, 1, 0], [-1, 1, 0], [1, -1, 0], [-1, -1, 0],
    [1, 0, 1], [-1, 0, 1], [1, 0, -1], [-1, 0, -1],
    [0, 1, 1], [0, -1, 1], [0, 1, -1], [0, -1, -1]
  ]

  class SimplexNoise {
    const grad3: seq<seq<int>>
    /** The doubled permutation table, so that `perm[a + perm[b]]` needs no wrapping. */
    const perm: array<Byte>

    /** perm[i] is p[i & 255] for each of its 512 entries. */
    ghost predicate PermTable()
      reads this, perm
    {
      perm.Length == 512 && forall i :: 0 <= i < 512 ==> perm[i] == P[LowByte(i)]
    }

    constructor ()
      ensures grad3 == Grad3 && fresh(perm)
      ensures perm.Length == 512
      ensures forall i :: 0 <= i < 512 ==> perm[i] == P[i % 256]
      ensures PermTable()
    {
      grad3 := Grad3;
      var table := DoubledTable(P);
      perm := table;
    }

    /** The loop of the constructor: entry i of the 512-entry table is `p[i & 255]`. */
    static method DoubledTable(p: seq<Byte>) returns (table: array<Byte>)
      requires |p| == 256
      ensures fresh(table) && table.Length == 512
      ensures forall i :: 0 <= i < 512 ==> table[i] == p[LowByte(i)] && table[i] == p[i % 256]
    {
      table := new Byte[512](_ => 0);
      for i := 0 to 512
        invariant forall k :: 0 <= k < i ==> table[k] == p[k % 256]
      {
        LowByteOfSmall(i);
        table[i] := p[LowByte(i)];
      }
      forall i | 0 <= i < 512
        ensures table[i] == p[LowByte(i)]
      {
        LowByteOfSmall(i);
      }
    }

    /** The table repeats with period 256. */
    lemma Periodic(i: int)
      requires PermTable() && 0 <= i < 256
      ensures perm[i + 256] == perm[i]
    {
      LowByteOfSmall(i);
      LowByteOfSmall(i + 256);
    }

    /**
     * The three table indices noise2D reads at the skewed cell (i, j) for the
     * gradients of its corners; `upper` is `x0 > y0`, which picks the middle corner.
     */
    function PermIndices(i: int, j: int, upper: bool): (k: (int, int, int))
      reads this, perm
      requires PermTable()
      ensures 0 <= k.0 <= 511 && 0 <= k.1 <= 511 && 0 <= k.2 <= 511
    {
      var (i1, j1) := if upper then (1, 0) else (0, 1);
      var ii, jj := LowByte(i), LowByte(j);
      (ii + perm[jj], ii + i1 + perm[jj + j1], ii + 1 + perm[jj + 1])
    }

    /** `gi0`, `gi1`, `gi2`: the gradient of each corner, an index into grad3. */
    function GradientIndices(i: int, j: int, upper: bool): (g: (int, int, int))
      reads this, perm
      requires PermTable()
      ensures 0 <= g.0 < |Grad3| && 0 <= g.1 < |Grad3| && 0 <= g.2 < |Grad3|
    {
      var k := PermIndices(i, j, upper);
      (perm[k.0] % 12, perm[k.1] % 12, perm[k.2] % 12)
    }
  }

  /** `k & 255` is k modulo 256 for a non-negative i32 k. */
  lemma LowByteOfSmall(k: int)
    requires 0 <= k < TwoTo31
    ensures LowByte(k) == k % 256
  {
    ToInt32OfInt32(k);
  }

  // --------------------------------------------------------------- fastNoise

  /** The i32 hash of fastNoise, with every product and sum wrapping modulo 2^32. */
  function Hash(ix: int, iy: int): (h: bv32)
    ensures ix == 0 && iy == 0 ==> h == 0
  {
    var hash := Bits(ix) * 374761393 + Bits(iy) * 668265263;
    var mixed := (hash ^ (hash >> 13)) * 1274126177;
    mixed ^ (mixed >> 16)
  }

  /** fastNoise(f32(x), f32(y)): the hash of `(i32(x * 0.5), i32(y * 0.5))` normalised to [-1, 1]. */
  function FastNoise(x: int, y: int): (v: real)
    ensures -1.0 <= v <= 1.0
  {
    MG.Normalize(Low31(Hash(Trunc(x as real * 0.5), Trunc(y as real * 0.5))))
  }

  /** Reference values of the hash: the origin, the two unit steps and two further blocks. */
  lemma HashValues()
    ensures Hash(0, 0) == 0
    ensures Hash(1, 0) == 0x821471d6 && Hash(0, 1) == 0xc4ada425
    ensures Hash(3, 7) == 0x0f8b9ada && Hash(5, 2) == 0x1de36e1e
  {
    assert Bits(0) == 0 && Bits(1) == 1 && Bits(2) == 2 && Bits(3) == 3 && Bits(5) == 5 && Bits(7) == 7;
  }

  /** The top-left 2 x 2 block has the hash 0, so its grain noise is -1. */
  lemma FastNoiseOrigin(x: int, y: int)
    requires 0 <= x < 2 && 0 <= y < 2
    ensures FastNoise(x, y) == -1.0
  {
    HalfTrunc(x);
    HalfTrunc(y);
    HashValues();
  }

  lemma HalfTrunc(x: int)
    requires x >= 0
    ensures Trunc(x as real * 0.5) == x / 2
  {
    MG.HalfFloor(x);
  }

  /** Pixels of one aligned 2 x 2 block share their grain value. */
  lemma FastNoiseBlock(x1: nat, y1: nat, x2: nat, y2: nat)
    requires x1 / 2 == x2 / 2 && y1 / 2 == y2 / 2
    ensures FastNoise(x1, y1) == FastNoise(x2, y2)
  {
    HalfTrunc(x1);
    HalfTrunc(x2);
    HalfTrunc(y1);
    HalfTrunc(y2);
  }

  // ------------------------------------------------------------------ colour

  /** The RGB class: three f32 channels. */
  datatype Color = Color(r: real, g: real, b: real)

  const White := Color(255.0, 255.0, 255.0)

  predicate InRange(c: Color) {
    0.0 <= c.r <= 255.0 && 0.0 <= c.g <= 255.0 && 0.0 <= c.b <= 255.0
  }

  /** lerpColor: each channel `c1 + (c2 - c1) * t`, without rounding. */
  function LerpColor(c1: Color, c2: Color, t: real): (c: Color)
    ensures t == 0.0 ==> c == c1
    ensures t == 1.0 ==> c == c2
    ensures c1 == c2 ==> c == c1
    ensures 0.0 <= t <= 1.0 && InRange(c1) && InRange(c2) ==> InRange(c)
  {
    Color(MG.Lerp(c1.r, c2.r, t), MG.Lerp(c1.g, c2.g, t), MG.Lerp(c1.b, c2.b, t))
  }

  /** blendColorWithInfluence: from white toward the palette colour by the influence. */
  function BlendColorWithInfluence(palette: Color, influence: real): (c: Color)
    ensures influence == 0.0 ==> c == White
    ensures influence == 1.0 ==> c == palette
    ensures 0.0 <= influence <= 1.0 && InRange(palette) ==> InRange(c)
  {
    Color(MG.Lerp(255.0, palette.r, influence), MG.Lerp(255.0, palette.g, influence), MG.Lerp(255.0, palette.b, influence))
  }

  /** The channels `(c >> 16) & 0xFF`, `(c >> 8) & 0xFF` and `c & 0xFF` of a u32 colour. */
  function UnpackColor(c: int): (rgb: MG.RGB)
    requires IsUint32(c)
    ensures MG.InGamut(rgb)
    ensures rgb.r * 0x1_0000 + rgb.g * 0x100 + rgb.b == c % 0x100_0000
  {
    ChannelsRecombine(c);
    MG.RGB((c / 0x1_0000) % 0x100, (c / 0x100) % 0x100, c % 0x100)
  }

  lemma ChannelsRecombine(c: int)
    requires IsUint32(c)
    ensures ((c / 0x1_0000) % 0x100) * 0x1_0000 + ((c / 0x100) % 0x100) * 0x100 + c % 0x100 == c % 0x100_0000
  {
    var n, q := c % 0x100_0000, c / 0x100_0000;
    var high, mid := n / 0x1_0000, n / 0x100;
    assert n == high * 0x1_0000 + n % 0x1_0000;
    DivModUnique(c, 0x1_0000, q * 0x100 + high, n % 0x1_0000);
    DivModUnique(c / 0x1_0000, 0x100, q, high);
    assert n == mid * 0x100 + n % 0x100;
    DivModUnique(c, 0x100, q * 0x1_0000 + mid, n % 0x100);
    assert mid == (mid / 0x100) * 0x100 + mid % 0x100;
    DivModUnique(c / 0x100, 0x100, q * 0x100 + mid / 0x100, mid % 0x100);
    MG.SplitBytes(n);
  }

  /** A colour `0xRRGGBB` unpacks to exactly R, G and B. */
  lemma UnpackChannels(r: int, g: int, b: int)
    requires 0 <= r < 256 && 0 <= g < 256 && 0 <= b < 256
    ensures UnpackColor(r * 0x1_0000 + g * 0x100 + b) == MG.RGB(r, g, b)
  {
    var c := r * 0x1_0000 + g * 0x100 + b;
    var u := UnpackColor(c);
    assert c % 0x100_0000 == c;
    MG.ChannelsUnique(u.r, u.g, u.b, r, g, b);
  }

  /** The f32 palette entry: the channels as floats. */
  function ToColor(c: MG.RGB): (f: Color)
    ensures MG.InGamut(c) ==> InRange(f)
  {
    Color(c.r as real, c.g as real, c.b as real)
  }

  /** colorIndex 0 picks palette0, 1 picks palette1, anything else palette2. */
  function SelectPalette(colorIndex: int, palette: seq<Color>): (c: Color)
    requires |palette| == 3
    ensures colorIndex == 0 ==> c == palette[0]
    ensures colorIndex == 1 ==> c == palette[1]
    ensures colorIndex != 0 && colorIndex != 1 ==> c == palette[2]
  {
    if colorIndex == 0 then palette[0]
    else if colorIndex == 1 then palette[1]
    else palette[2]
  }

  /** Where the JS palette lookup succeeds, on a three-colour palette, both pick the same colour. */
  lemma SelectPaletteAgrees(colorIndex: int, palette: seq<MG.RGB>)
    requires |palette| == 3
    requires MG.CornerColor(palette, MG.GridPoint(colorIndex, 1.0)).Success?
    ensures SelectPalette(colorIndex, [ToColor(palette[0]), ToColor(palette[1]), ToColor(palette[2])])
      == ToColor(palette[colorIndex])
  {
  }

  // ----------------------------------------------------------- getPixelColor

  /** The 6 x 4 grid is 24 records of 8 bytes: an i32 colour index, then an f32 influence. */
  const GridSize: nat := 192

  /** The address of the record of grid point (row, column): `gridPtr + (row * 6 + column) * 8`. */
  function RecordAddress(gridPtr: int, row: int, column: int): (address: int)
    ensures 0 <= row < 4 && 0 <= column < 6 ==>
      gridPtr <= address <= gridPtr + 184 && (address - gridPtr) % 8 == 0
  {
    gridPtr + (row * 6 + column) * 8
  }

  /** Two grid points have the same record only if they are the same point. */
  lemma RecordAddressInjective(gridPtr: int, row: int, column: int, row': int, column': int)
    requires 0 <= row < 4 && 0 <= column < 6 && 0 <= row' < 4 && 0 <= column' < 6
    requires RecordAddress(gridPtr, row, column) == RecordAddress(gridPtr, row', column')
    ensures row == row' && column == column'
  {
  }

  /** The whole grid lies in memory. */
  predicate GridInMemory(bytes: seq<Byte>, gridPtr: int) {
    0 <= gridPtr && gridPtr + GridSize <= |bytes|
  }

  /** The bits of the influence of grid point (row, column), `load<f32>(address + 4)`. */
  function InfluenceBits(bytes: seq<Byte>, gridPtr: int, row: int, column: int): (bits: int)
    requires GridInMemory(bytes, gridPtr) && 0 <= row < 4 && 0 <= column < 6
    ensures IsUint32(bits)
  {
    LoadU32(bytes, RecordAddress(gridPtr, row, column) + 4)
  }

  /** The grid is in memory and every influence is a finite float. */
  predicate GridReadable(bytes: seq<Byte>, gridPtr: int) {
    GridInMemory(bytes, gridPtr) &&
    forall row, column :: 0 <= row < 4 && 0 <= column < 6 ==>
      Binary32.IsFinite(InfluenceBits(bytes, gridPtr, row, column))
  }

  /** `load<i32>(address)`: the colour index of grid point (row, column). */
  function ColorIndexAt(bytes: seq<Byte>, gridPtr: int, row: int, column: int): (colorIndex: int)
    requires GridInMemory(bytes, gridPtr) && 0 <= row < 4 && 0 <= column < 6
    ensures IsInt32(colorIndex)
  {
    LoadI32(bytes, RecordAddress(gridPtr, row, column))
  }

  /** `load<f32>(address + 4)`: the influence of grid point (row, column). */
  function InfluenceAt(bytes: seq<Byte>, gridPtr: int, row: int, column: int): (influence: real)
    requires GridReadable(bytes, gridPtr) && 0 <= row < 4 && 0 <= column < 6
    ensures InfluenceBits(bytes, gridPtr, row, column) == 0x3F80_0000 ==> influence == 1.0
  {
    Binary32.KnownValues();
    Binary32.Value(InfluenceBits(bytes, gridPtr, row, column))
  }

  /** The colour of grid point (row, column): its palette entry blended from white by its influence. */
  function CornerColor(bytes: seq<Byte>, gridPtr: int, row: int, column: int, palette: seq<Color>): (c: Color)
    requires GridReadable(bytes, gridPtr) && 0 <= row < 4 && 0 <= column < 6 && |palette| == 3
    ensures (InRange(palette[0]) && InRange(palette[1]) && InRange(palette[2])
             && 0.0 <= InfluenceAt(bytes, gridPtr, row, column) <= 1.0) ==> InRange(c)
  {
    BlendColorWithInfluence(SelectPalette(ColorIndexAt(bytes, gridPtr, row, column), palette),
                            InfluenceAt(bytes, gridPtr, row, column))
  }

  /**
   * The cell of pixel (x, y): grid coordinates `x / (width - 1) * 5` and
   * `y / (height - 1) * 3`, truncated, the cell clamped to the last one.
   */
  function LocateCell(x: int, y: int, width: int, height: int): (c: MG.Cell)
    requires width >= 2 && height >= 2
    ensures 0 <= x < width ==> 0 <= c.cellX <= 4 && 0.0 <= c.tx <= 1.0
    ensures 0 <= y < height ==> 0 <= c.cellY <= 2 && 0.0 <= c.ty <= 1.0
    ensures x == 0 ==> c.cellX == 0 && c.tx == 0.0
    ensures y == 0 ==> c.cellY == 0 && c.ty == 0.0
    ensures x == width - 1 ==> c.cellX == 4 && c.tx == 1.0
    ensures y == height - 1 ==> c.cellY == 2 && c.ty == 1.0
  {
    var gridX := x as real / (width - 1) as real * 5.0;
    var gridY := y as real / (height - 1) as real * 3.0;
    MG.UnitQuotient(x as real, (width - 1) as real);
    MG.UnitQuotient(y as real, (height - 1) as real);
    var cellX := if Trunc(gridX) > 4 then 4 else Trunc(gridX);
    var cellY := if Trunc(gridY) > 2 then 2 else Trunc(gridY);
    MG.Cell(cellX, cellY, gridX - cellX as real, gridY - cellY as real)
  }

  /** At an in-image pixel the truncating, clamping cell search finds the cell the JS rasterizer finds. */
  lemma LocateCellAgrees(x: int, y: int, width: int, height: int)
    requires width >= 2 && height >= 2 && 0 <= x < width && 0 <= y < height
    ensures LocateCell(x, y, width, height) == MG.Locate(x as real, y as real, width, height)
  {
    MG.UnitQuotient(x as real, (width - 1) as real);
    MG.UnitQuotient(y as real, (height - 1) as real);
  }

  /**
   * getPixelColor: the four corners of the cell, blended, then interpolated
   * along x and then y. The image's top-left and bottom-right pixels take the
   * colours of the grid's first and last points.
   */
  function GetPixelColor(x: int, y: int, width: int, height: int, bytes: seq<Byte>, gridPtr: int, palette: seq<Color>): (c: Color)
    requires width >= 2 && height >= 2 && 0 <= x < width && 0 <= y < height
    requires GridReadable(bytes, gridPtr) && |palette| == 3
    ensures x == 0 && y == 0 ==> c == CornerColor(bytes, gridPtr, 0, 0, palette)
    ensures x == width - 1 && y == height - 1 ==> c == CornerColor(bytes, gridPtr, 3, 5, palette)
  {
    var cell := LocateCell(x, y, width, height);
    var topLeft := CornerColor(bytes, gridPtr, cell.cellY, cell.cellX, palette);
    var topRight := CornerColor(bytes, gridPtr, cell.cellY, cell.cellX + 1, palette);
    var bottomLeft := CornerColor(bytes, gridPtr, cell.cellY + 1, cell.cellX, palette);
    var bottomRight := CornerColor(bytes, gridPtr, cell.cellY + 1, cell.cellX + 1, palette);
    var top := LerpColor(topLeft, topRight, cell.tx);
    var bottom := LerpColor(bottomLeft, bottomRight, cell.tx);
    LerpColor(top, bottom, cell.ty)
  }

  /** Every influence lies in [0, 1]. */
  predicate InfluencesInUnit(bytes: seq<Byte>, gridPtr: int)
    requires GridReadable(bytes, gridPtr)
  {
    forall row, column :: 0 <= row < 4 && 0 <= column < 6 ==> 0.0 <= InfluenceAt(bytes, gridPtr, row, column) <= 1.0
  }

  /** With palette channels in [0, 255] and influences in [0, 1], every pixel colour has channels in [0, 255]. */
  lemma GetPixelColorInRange(x: int, y: int, width: int, height: int, bytes: seq<Byte>, gridPtr: int, palette: seq<Color>)
    requires width >= 2 && height >= 2 && 0 <= x < width && 0 <= y < height
    requires GridReadable(bytes, gridPtr) && |palette| == 3
    requires InRange(palette[0]) && InRange(palette[1]) && InRange(palette[2]) && InfluencesInUnit(bytes, gridPtr)
    ensures InRange(GetPixelColor(x, y, width, height, bytes, gridPtr, palette))
  {
    var cell := LocateCell(x, y, width, height);
    assert 0.0 <= InfluenceAt(bytes, gridPtr, cell.cellY, cell.cellX) <= 1.0;
    assert 0.0 <= InfluenceAt(bytes, gridPtr, cell.cellY, cell.cellX + 1) <= 1.0;
    assert 0.0 <= InfluenceAt(bytes, gridPtr, cell.cellY + 1, cell.cellX) <= 1.0;
    assert 0.0 <= InfluenceAt(bytes, gridPtr, cell.cellY + 1, cell.cellX + 1) <= 1.0;
  }

  /** Every record holds the same bytes: colour index `colorIndex` and influence bits `influenceBits`. */
  predicate UniformGrid(bytes: seq<Byte>, gridPtr: int, colorIndex: int, influenceBits: int)
    requires GridInMemory(bytes, gridPtr)
  {
    forall row, column :: 0 <= row < 4 && 0 <= column < 6 ==>
      ColorIndexAt(bytes, gridPtr, row, column) == colorIndex && InfluenceBits(bytes, gridPtr, row, column) == influenceBits
  }

  /** On a uniform grid every pixel has the one corner colour. */
  lemma UniformGridColor(x: int, y: int, width: int, height: int, bytes: seq<Byte>, gridPtr: int, palette: seq<Color>,
                         colorIndex: int, influenceBits: int)
    requires width >= 2 && height >= 2 && 0 <= x < width && 0 <= y < height
    requires GridReadable(bytes, gridPtr) && |palette| == 3
    requires UniformGrid(bytes, gridPtr, colorIndex, influenceBits)
    ensures IsUint32(influenceBits) && Binary32.IsFinite(influenceBits)
    ensures GetPixelColor(x, y, width, height, bytes, gridPtr, palette)
      == BlendColorWithInfluence(SelectPalette(colorIndex, palette), Binary32.Value(influenceBits))
  {
    var cell := LocateCell(x, y, width, height);
    assert InfluenceBits(bytes, gridPtr, 0, 0) == influenceBits;
    var c := BlendColorWithInfluence(SelectPalette(colorIndex, palette), Binary32.Value(influenceBits));
    assert CornerColor(bytes, gridPtr, cell.cellY, cell.cellX, palette) == c;
    assert CornerColor(bytes, gridPtr, cell.cellY, cell.cellX + 1, palette) == c;
    assert CornerColor(bytes, gridPtr, cell.cellY + 1, cell.cellX, palette) == c;
    assert CornerColor(bytes, gridPtr, cell.cellY + 1, cell.cellX + 1, palette) == c;
  }

  /** The 192 grid bytes at `gridPtr`. */
  function GridOf(bytes: seq<Byte>, gridPtr: int): (grid: seq<Byte>)
    requires GridInMemory(bytes, gridPtr)
    ensures |grid| == GridSize && GridInMemory(grid, 0)
  {
    bytes[gridPtr..gridPtr + GridSize]
  }

  /** Grids with the same 192 bytes, wherever they sit, have the same records. */
  lemma GridFrame(bytes: seq<Byte>, gridPtr: int, bytes': seq<Byte>, gridPtr': int)
    requires GridInMemory(bytes, gridPtr) && GridInMemory(bytes', gridPtr')
    requires GridOf(bytes', gridPtr') == GridOf(bytes, gridPtr)
    ensures forall row, column :: 0 <= row < 4 && 0 <= column < 6 ==>
      ColorIndexAt(bytes', gridPtr', row, column) == ColorIndexAt(bytes, gridPtr, row, column) &&
      InfluenceBits(bytes', gridPtr', row, column) == InfluenceBits(bytes, gridPtr, row, column)
    ensures GridReadable(bytes, gridPtr) ==> GridReadable(bytes', gridPtr')
  {
    forall i | gridPtr <= i < gridPtr + GridSize
      ensures bytes'[i - gridPtr + gridPtr'] == bytes[i]
    {
      assert bytes'[i - gridPtr + gridPtr'] == GridOf(bytes', gridPtr')[i - gridPtr];
    }
    forall row, column | 0 <= row < 4 && 0 <= column < 6
      ensures ColorIndexAt(bytes', gridPtr', row, column) == ColorIndexAt(bytes, gridPtr, row, column)
      ensures InfluenceBits(bytes', gridPtr', row, column) == InfluenceBits(bytes, gridPtr, row, column)
    {
      var i, i' := RecordAddress(gridPtr, row, column), RecordAddress(gridPtr', row, column);
      assert i' == i - gridPtr + gridPtr';
      assert bytes'[i'] == bytes[i] && bytes'[i' + 1] == bytes[i + 1] && bytes'[i' + 2] == bytes[i + 2] && bytes'[i' + 3] == bytes[i + 3];
      assert bytes'[i' + 4] == bytes[i + 4] && bytes'[i' + 5] == bytes[i + 5] && bytes'[i' + 6] == bytes[i + 6] && bytes'[i' + 7] == bytes[i + 7];
    }
  }

  /** Only the 192 grid bytes matter to the pixel colour, not where they sit or what surrounds them. */
  lemma GetPixelColorFrame(x: int, y: int, width: int, height: int, bytes: seq<Byte>, gridPtr: int,
                           bytes': seq<Byte>, gridPtr': int, palette: seq<Color>)
    requires width >= 2 && height >= 2 && 0 <= x < width && 0 <= y < height
    requires GridReadable(bytes, gridPtr) && |palette| == 3
    requires GridInMemory(bytes', gridPtr') && GridOf(bytes', gridPtr') == GridOf(bytes, gridPtr)
    ensures GridReadable(bytes', gridPtr')
    ensures GetPixelColor(x, y, width, height, bytes', gridPtr', palette) == GetPixelColor(x, y, width, height, bytes, gridPtr, palette)
  {
    GridFrame(bytes, gridPtr, bytes', gridPtr');
  }

  // ------------------------------------------------------- generateImageFull

  /** The twelve arguments of generateImageFull. */
  datatype Arguments = Arguments(
    width: nat, height: nat,
    color0: int, color1: int, color2: int,
    gridPtr: nat,
    displacementEnabled: bool, displacementFreq: real, displacementAmp: real,
    grainEnabled: bool, grainIntensity: real,
    outputPtr: nat)

  predicate ColorsOk(a: Arguments) {
    IsUint32(a.color0) && IsUint32(a.color1) && IsUint32(a.color2)
  }

  /** palette0, palette1, palette2: the three colours unpacked into f32 channels. */
  function Palette(a: Arguments): (palette: seq<Color>)
    requires ColorsOk(a)
    ensures |palette| == 3 && InRange(palette[0]) && InRange(palette[1]) && InRange(palette[2])
  {
    [ToColor(UnpackColor(a.color0)), ToColor(UnpackColor(a.color1)), ToColor(UnpackColor(a.color2))]
  }

  /** What the pixel computation needs: 32-bit colours, an image of at least 2 x 2 pixels and a readable grid. */
  predicate Drawable(a: Arguments, bytes: seq<Byte>) {
    ColorsOk(a) && a.width >= 2 && a.height >= 2 && GridReadable(bytes, a.gridPtr)
  }

  /**
   * The sample point of pixel (x, y): with displacement, (x, y) moved by
   * two noise samples times the amplitude and clamped into the image.
   */
  function SamplePoint(x: nat, y: nat, a: Arguments, noise2D: MG.Noise2D): (s: (real, real))
    ensures !a.displacementEnabled ==> s == (x as real, y as real)
    ensures a.displacementEnabled && a.width >= 1 && a.height >= 1 ==>
      0.0 <= s.0 <= (a.width - 1) as real && 0.0 <= s.1 <= (a.height - 1) as real
  {
    if a.displacementEnabled then
      var noiseX := MG.NoiseAt(x, y, a.displacementFreq, noise2D);
      var noiseY := MG.NoiseAt(x + 1000, y + 1000, a.displacementFreq, noise2D);
      (MG.Displaced(x, noiseX, a.displacementAmp, a.width), MG.Displaced(y, noiseY, a.displacementAmp, a.height))
    else
      (x as real, y as real)
  }

  /** `i32(sampleX)`, `i32(sampleY)`: the sample point truncated, which stays inside the image. */
  function SamplePixel(x: nat, y: nat, a: Arguments, noise2D: MG.Noise2D): (p: (int, int))
    requires x < a.width && y < a.height
    ensures 0 <= p.0 < a.width && 0 <= p.1 < a.height
    ensures !a.displacementEnabled ==> p == (x as int, y as int)
  {
    var s := SamplePoint(x, y, a, noise2D);
    (Trunc(s.0), Trunc(s.1))
  }

  /** One channel as stored: `u8(max(0.0, min(255.0, v)))`, the clamped value truncated. */
  function Channel(v: real): (b: Byte)
    ensures 0.0 <= v <= 255.0 ==> b as real <= v < b as real + 1.0
    ensures v < 0.0 ==> b == 0
    ensures v >= 255.0 ==> b == 255
  {
    Trunc(Clamp(0.0, 255.0, v))
  }

  /** The grain value of pixel (x, y), when grain is enabled: `fastNoise(x, y) * grainIntensity * 255`. */
  function PixelGrain(x: nat, y: nat, a: Arguments): (g: Option<real>)
    ensures g.Some? <==> a.grainEnabled
    ensures g.Some? && 0.0 <= a.grainIntensity ==> -a.grainIntensity * 255.0 <= g.value <= a.grainIntensity * 255.0
  {
    if a.grainEnabled then Some(MG.GrainValue(FastNoise(x, y), a.grainIntensity)) else None
  }

  /** The four bytes stored for a pixel of colour c: each channel with the grain added, clamped and truncated, then 255. */
  function ShadedBytes(c: Color, grain: Option<real>): (rgba: seq<Byte>)
    ensures |rgba| == 4 && rgba[3] == MG.Opaque
    ensures grain.None? && InRange(c) ==> rgba == [c.r.Floor, c.g.Floor, c.b.Floor, MG.Opaque]
  {
    match grain
    case None => [Channel(c.r), Channel(c.g), Channel(c.b), MG.Opaque]
    case Some(g) => [Channel(c.r + g), Channel(c.g + g), Channel(c.b + g), MG.Opaque]
  }

  /** What a pixel needs of the 192 grid bytes and the arguments. */
  predicate PixelReady(a: Arguments, grid: seq<Byte>) {
    ColorsOk(a) && a.width >= 2 && a.height >= 2 && GridReadable(grid, 0)
  }

  /** The grid bytes of a drawable image are ready for the pixels. */
  lemma DrawableGrid(a: Arguments, bytes: seq<Byte>)
    requires Drawable(a, bytes)
    ensures PixelReady(a, GridOf(bytes, a.gridPtr))
  {
    GridFrame(bytes, a.gridPtr, GridOf(bytes, a.gridPtr), 0);
  }

  /** The four bytes stored for pixel (x, y), read from the 192 grid bytes `grid`. */
  function PixelBytes(x: nat, y: nat, a: Arguments, grid: seq<Byte>, noise2D: MG.Noise2D): (rgba: seq<Byte>)
    requires PixelReady(a, grid) && x < a.width && y < a.height
    ensures |rgba| == 4 && rgba[3] == MG.Opaque
  {
    var (sampleX, sampleY) := SamplePixel(x, y, a, noise2D);
    ShadedBytes(GetPixelColor(sampleX, sampleY, a.width, a.height, grid, 0, Palette(a)), PixelGrain(x, y, a))
  }

  /** Without displacement or grain, and with influences in [0, 1], each channel is the interpolated colour rounded down. */
  lemma PlainPixel(x: nat, y: nat, a: Arguments, grid: seq<Byte>, noise2D: MG.Noise2D)
    requires PixelReady(a, grid) && x < a.width && y < a.height
    requires !a.displacementEnabled && !a.grainEnabled && InfluencesInUnit(grid, 0)
    ensures var c := GetPixelColor(x, y, a.width, a.height, grid, 0, Palette(a));
      PixelBytes(x, y, a, grid, noise2D) == [c.r.Floor, c.g.Floor, c.b.Floor, MG.Opaque]
  {
    GetPixelColorInRange(x, y, a.width, a.height, grid, 0, Palette(a));
  }

  /**
   * Without displacement or grain, on a grid whose every point has colour
   * index `colorIndex` and influence 1.0, every pixel is that palette colour.
   */
  lemma UniformPixel(x: nat, y: nat, a: Arguments, grid: seq<Byte>, noise2D: MG.Noise2D, colorIndex: int)
    requires PixelReady(a, grid) && x < a.width && y < a.height
    requires !a.displacementEnabled && !a.grainEnabled
    requires UniformGrid(grid, 0, colorIndex, 0x3F80_0000)
    ensures var c := SelectPalette(colorIndex, Palette(a));
      PixelBytes(x, y, a, grid, noise2D) == [c.r.Floor, c.g.Floor, c.b.Floor, MG.Opaque]
  {
    Binary32.KnownValues();
    UniformGridColor(x, y, a.width, a.height, grid, 0, Palette(a), colorIndex, 0x3F80_0000);
  }

  /** The first test image: colour index 0, influence 1.0 and color0 = 0xFF0000 give opaque red pixels. */
  lemma UniformRedPixel(x: nat, y: nat, a: Arguments, grid: seq<Byte>, noise2D: MG.Noise2D)
    requires PixelReady(a, grid) && x < a.width && y < a.height
    requires !a.displacementEnabled && !a.grainEnabled && a.color0 == 0xFF_0000
    requires UniformGrid(grid, 0, 0, 0x3F80_0000)
    ensures PixelBytes(x, y, a, grid, noise2D) == [255, 0, 0, 255]
  {
    UniformPixel(x, y, a, grid, noise2D, 0);
    UnpackChannels(255, 0, 0);
  }

  /** The outcome of each pixel drawn from the 192 grid bytes `grid`; pixels outside the image fail. */
  function GridPixels(a: Arguments, grid: seq<Byte>, noise2D: MG.Noise2D): (pixels: MG.PixelFunction)
    ensures MG.WellFormedPixels(pixels)
    ensures PixelReady(a, grid) ==> MG.RowsOk(pixels, a.width, a.height)
  {
    (x: nat, y: nat) =>
      if PixelReady(a, grid) && x < a.width && y < a.height then Success(PixelBytes(x, y, a, grid, noise2D))
      else Failure(MG.TypeError)
  }

  /** The whole image drawn from the 192 grid bytes `grid`, row by row, four bytes per pixel. */
  function ImageOf(a: Arguments, grid: seq<Byte>, noise2D: MG.Noise2D): (image: seq<Byte>)
    requires PixelReady(a, grid) || a.width == 0 || a.height == 0
    ensures |image| == a.width * a.height * 4
  {
    MG.ImageBytes(GridPixels(a, grid, noise2D), a.width, a.height)
  }

  /** The outcome of each pixel; pixels outside the image, or of an image that cannot be drawn, fail. */
  function PixelsOf(a: Arguments, bytes: seq<Byte>, noise2D: MG.Noise2D): (pixels: MG.PixelFunction)
    ensures MG.WellFormedPixels(pixels)
    ensures Drawable(a, bytes) ==> MG.RowsOk(pixels, a.width, a.height)
  {
    if GridInMemory(bytes, a.gridPtr) then
      if Drawable(a, bytes) then
        DrawableGrid(a, bytes);
        GridPixels(a, GridOf(bytes, a.gridPtr), noise2D)
      else
        GridPixels(a, GridOf(bytes, a.gridPtr), noise2D)
    else
      (x: nat, y: nat) => Failure(MG.TypeError)
  }

  /** pixels agrees with PixelBytes wherever a PixelBytes term is at hand. */
  ghost predicate Computes(pixels: MG.PixelFunction, a: Arguments, grid: seq<Byte>, noise2D: MG.Noise2D)
    requires PixelReady(a, grid)
  {
    forall x: nat, y: nat {:trigger PixelBytes(x, y, a, grid, noise2D)} ::
      x < a.width && y < a.height ==> pixels(x, y) == Success(PixelBytes(x, y, a, grid, noise2D))
  }

  lemma PixelsOfComputes(a: Arguments, bytes: seq<Byte>, noise2D: MG.Noise2D)
    requires Drawable(a, bytes)
    ensures PixelReady(a, GridOf(bytes, a.gridPtr))
    ensures Computes(PixelsOf(a, bytes, noise2D), a, GridOf(bytes, a.gridPtr), noise2D)
  {
    DrawableGrid(a, bytes);
  }

  /**
   * What the caller must guarantee: 32-bit colours and sizes, an image
   * buffer in memory whose byte offsets fit an i32, and, when there are
   * pixels, a drawable image whose buffer does not overlap the grid.
   */
  predicate Callable(a: Arguments, bytes: seq<Byte>) {
    ColorsOk(a) && a.width < TwoTo31 && a.height < TwoTo31 &&
    a.width * a.height * 4 < TwoTo31 &&
    a.outputPtr + a.width * a.height * 4 <= |bytes| &&
    (a.width == 0 || a.height == 0 ||
      (Drawable(a, bytes) &&
       (a.outputPtr + a.width * a.height * 4 <= a.gridPtr || a.gridPtr + GridSize <= a.outputPtr)))
  }

  /** Memory with the RGBA bytes of `pixels`, row by row, stored from `outputPtr` on; every other byte as it was. */
  function StoreImage(bytes: seq<Byte>, outputPtr: nat, pixels: MG.PixelFunction, width: nat, height: nat): (after: seq<Byte>)
    requires MG.WellFormedPixels(pixels) && MG.RowsOk(pixels, width, height)
    requires outputPtr + width * height * 4 <= |bytes|
    ensures |after| == |bytes|
    ensures forall i :: 0 <= i < |bytes| && !(outputPtr <= i < outputPtr + width * height * 4) ==> after[i] == bytes[i]
  {
    bytes[..outputPtr] + MG.ImageBytes(pixels, width, height) + bytes[outputPtr + width * height * 4..]
  }

  /** Byte c of pixel (x, y) is stored at outputPtr + (y * width + x) * 4 + c. */
  lemma StoredPixel(bytes: seq<Byte>, outputPtr: nat, pixels: MG.PixelFunction, width: nat, height: nat, x: nat, y: nat, c: nat)
    requires MG.WellFormedPixels(pixels) && MG.RowsOk(pixels, width, height)
    requires outputPtr + width * height * 4 <= |bytes|
    requires x < width && y < height && c < 4
    ensures outputPtr + (y * width + x) * 4 + c < outputPtr + width * height * 4
    ensures StoreImage(bytes, outputPtr, pixels, width, height)[outputPtr + (y * width + x) * 4 + c] == pixels(x, y).value[c]
  {
    MG.ImageBytesIndex(pixels, width, height, x, y, c);
    assert |bytes[..outputPtr]| == outputPtr;
  }

  /** The memory after generateImageFull: the image stored at outputPtr, every other byte as it was. */
  function Render(a: Arguments, bytes: seq<Byte>, noise2D: MG.Noise2D): (after: seq<Byte>)
    requires Callable(a, bytes)
    ensures |after| == |bytes|
  {
    StoreImage(bytes, a.outputPtr, PixelsOf(a, bytes, noise2D), a.width, a.height)
  }

  /** On a drawable image, PixelsOf gives each in-image pixel its computed bytes. */
  lemma PixelsOfAt(a: Arguments, bytes: seq<Byte>, noise2D: MG.Noise2D, x: nat, y: nat)
    requires Drawable(a, bytes) && x < a.width && y < a.height
    ensures PixelReady(a, GridOf(bytes, a.gridPtr))
    ensures PixelsOf(a, bytes, noise2D)(x, y) == Success(PixelBytes(x, y, a, GridOf(bytes, a.gridPtr), noise2D))
  {
    DrawableGrid(a, bytes);
  }

  /** The bytes generateImageFull leaves from outputPtr on are the image drawn from the 192 grid bytes. */
  lemma RenderImage(a: Arguments, bytes: seq<Byte>, noise2D: MG.Noise2D)
    requires Callable(a, bytes) && GridInMemory(bytes, a.gridPtr)
    ensures PixelReady(a, GridOf(bytes, a.gridPtr)) || a.width == 0 || a.height == 0
    ensures 0 <= a.width * a.height * 4 && a.outputPtr + a.width * a.height * 4 <= |bytes|
    ensures Render(a, bytes, noise2D)[a.outputPtr..a.outputPtr + a.width * a.height * 4]
      == ImageOf(a, GridOf(bytes, a.gridPtr), noise2D)
  {
    if Drawable(a, bytes) {
      DrawableGrid(a, bytes);
    }
    ImageFits(a, bytes);
    assert |bytes[..a.outputPtr]| == a.outputPtr;
  }

  // ------------------------------------------------------ the store sequence

  /**
   * Memory part-way through the pixel loops: rows 0 .. y - 1 and pixels
   * 0 .. x - 1 of row y are stored, every other byte is as it was.
   */
  ghost function Partial(before: seq<Byte>, outputPtr: nat, pixels: MG.PixelFunction, width: nat, y: nat, x: nat): (m: seq<Byte>)
    requires MG.WellFormedPixels(pixels) && MG.RowsOk(pixels, width, y) && MG.RowOk(pixels, y, x)
    requires outputPtr + 4 * (y * width) + 4 * x <= |before|
    ensures |m| == |before|
  {
    before[..outputPtr] + MG.ImageRows(pixels, width, y) + MG.RowBytes(pixels, y, x) + before[outputPtr + 4 * (y * width) + 4 * x..]
  }

  /** Pixel (x, y) lies inside the image, so the stores so far and the next ones stay inside the buffer. */
  lemma PixelOffset(x: nat, y: nat, width: nat, height: nat)
    requires x <= width && y < height
    ensures 4 * (y * width) + 4 * x <= width * height * 4
    ensures x < width ==> (y * width + x) * 4 + 4 <= width * height * 4
  {
    MulMonotonic(y + 1, height, width);
  }

  lemma PartialStart(before: seq<Byte>, outputPtr: nat, pixels: MG.PixelFunction, width: nat)
    requires MG.WellFormedPixels(pixels) && outputPtr <= |before|
    ensures Partial(before, outputPtr, pixels, width, 0, 0) == before
  {
  }

  /** Storing the bytes of pixel (x, y) at the next offset extends the stored prefix by one pixel. */
  lemma PartialStore(before: seq<Byte>, outputPtr: nat, pixels: MG.PixelFunction, width: nat, height: nat, y: nat, x: nat)
    requires MG.WellFormedPixels(pixels) && MG.RowsOk(pixels, width, height) && y < height && x < width
    requires outputPtr + 4 * (y * width) + 4 * x + 4 <= |before|
    ensures var m := Partial(before, outputPtr, pixels, width, y, x);
      var i := outputPtr + 4 * (y * width) + 4 * x;
      m[..i] + pixels(x, y).value + m[i + 4..] == Partial(before, outputPtr, pixels, width, y, x + 1)
  {
    var m := Partial(before, outputPtr, pixels, width, y, x);
    var i := outputPtr + 4 * (y * width) + 4 * x;
    var done := before[..outputPtr] + MG.ImageRows(pixels, width, y) + MG.RowBytes(pixels, y, x);
    assert |done| == i;
    assert m == done + before[i..];
    assert m[..i] == done;
    assert m[i + 4..] == before[i + 4..];
    assert MG.RowBytes(pixels, y, x + 1) == MG.RowBytes(pixels, y, x) + pixels(x, y).value;
  }

  /** A finished row is the start of the next one. */
  lemma PartialRowEnd(before: seq<Byte>, outputPtr: nat, pixels: MG.PixelFunction, width: nat, height: nat, y: nat)
    requires MG.WellFormedPixels(pixels) && MG.RowsOk(pixels, width, height) && y < height
    requires outputPtr + 4 * (y * width) + 4 * width <= |before|
    ensures outputPtr + 4 * ((y + 1) * width) <= |before|
    ensures Partial(before, outputPtr, pixels, width, y, width) == Partial(before, outputPtr, pixels, width, y + 1, 0)
  {
    assert (y + 1) * width == y * width + width;
    assert MG.ImageRows(pixels, width, y + 1) == MG.ImageRows(pixels, width, y) + MG.RowBytes(pixels, y, width);
  }

  /** After the last row the memory holds the whole image. */
  lemma PartialEnd(before: seq<Byte>, outputPtr: nat, pixels: MG.PixelFunction, width: nat, height: nat)
    requires MG.WellFormedPixels(pixels) && MG.RowsOk(pixels, width, height)
    requires outputPtr + width * height * 4 <= |before|
    ensures Partial(before, outputPtr, pixels, width, height, 0) == StoreImage(before, outputPtr, pixels, width, height)
  {
    assert 4 * (height * width) == width * height * 4;
  }

  /** The stores so far leave a region outside the output buffer, such as the grid, as it was. */
  lemma PartialOutside(before: seq<Byte>, outputPtr: nat, pixels: MG.PixelFunction, width: nat, height: nat, y: nat, x: nat,
                       start: nat, end: nat)
    requires MG.WellFormedPixels(pixels) && MG.RowsOk(pixels, width, height) && y < height && x <= width
    requires outputPtr + width * height * 4 <= |before|
    requires start <= end <= |before| && (outputPtr + width * height * 4 <= start || end <= outputPtr)
    ensures outputPtr + 4 * (y * width) + 4 * x <= |before|
    ensures Partial(before, outputPtr, pixels, width, y, x)[start..end] == before[start..end]
  {
    PixelOffset(x, y, width, height);
    var m := Partial(before, outputPtr, pixels, width, y, x);
    var i := outputPtr + 4 * (y * width) + 4 * x;
    var done := before[..outputPtr] + MG.ImageRows(pixels, width, y) + MG.RowBytes(pixels, y, x);
    assert |done| == i;
    assert m == done + before[i..];
    forall k | start <= k < end
      ensures m[k] == before[k]
    {
      if k < outputPtr {
        assert m[k] == before[..outputPtr][k];
      }
    }
  }

  /** The image buffer starts inside memory. */
  lemma ImageFits(a: Arguments, bytes: seq<Byte>)
    requires Callable(a, bytes)
    ensures 0 <= a.width * a.height * 4 && a.outputPtr <= |bytes|
  {
    MulMonotonic(0, a.width, a.height);
  }

  /** Part-way through the pixel loops the grid is as it was, so the image is still drawable. */
  lemma GridKept(before: seq<Byte>, a: Arguments, pixels: MG.PixelFunction, y: nat, x: nat)
    requires Callable(a, before) && x < a.width && y < a.height
    requires MG.WellFormedPixels(pixels) && MG.RowsOk(pixels, a.width, a.height)
    ensures Drawable(a, before)
    ensures a.outputPtr + 4 * (y * a.width) + 4 * x + 4 <= |before|
    ensures 0 <= (y * a.width + x) * 4 < TwoTo31
    ensures var m := Partial(before, a.outputPtr, pixels, a.width, y, x);
      Drawable(a, m) && GridOf(m, a.gridPtr) == GridOf(before, a.gridPtr)
  {
    PixelOffset(x, y, a.width, a.height);
    PartialOutside(before, a.outputPtr, pixels, a.width, a.height, y, x, a.gridPtr, a.gridPtr + GridSize);
    GridFrame(before, a.gridPtr, Partial(before, a.outputPtr, pixels, a.width, y, x), a.gridPtr);
  }

  /**
   * What the pixel loops keep: the arguments are callable on the memory
   * before the loops, the palette is theirs, and `pixels` gives every pixel
   * of a drawable image its computed bytes.
   */
  ghost predicate LoopReady(a: Arguments, palette: seq<Color>, noise2D: MG.Noise2D, before: seq<Byte>, pixels: MG.PixelFunction) {
    Callable(a, before) && ColorsOk(a) && palette == Palette(a) &&
    MG.WellFormedPixels(pixels) && MG.RowsOk(pixels, a.width, a.height) &&
    (Drawable(a, before) ==> PixelReady(a, GridOf(before, a.gridPtr)) && Computes(pixels, a, GridOf(before, a.gridPtr), noise2D))
  }

  /**
   * The pixel outcomes the loops store: those of PixelsOf, which agree with
   * PixelBytes on a drawable image; once every row is stored the memory is Render's.
   */
  lemma PlanImage(a: Arguments, bytes: seq<Byte>, noise2D: MG.Noise2D) returns (pixels: MG.PixelFunction)
    requires Callable(a, bytes)
    ensures LoopReady(a, Palette(a), noise2D, bytes, pixels)
    ensures a.outputPtr + 4 * (a.height * a.width) <= |bytes|
    ensures Partial(bytes, a.outputPtr, pixels, a.width, a.height, 0) == Render(a, bytes, noise2D)
  {
    pixels := PixelsOf(a, bytes, noise2D);
    if Drawable(a, bytes) {
      PixelsOfComputes(a, bytes, noise2D);
    }
    assert 4 * (a.height * a.width) == a.width * a.height * 4;
    PartialEnd(bytes, a.outputPtr, pixels, a.width, a.height);
  }

  // ------------------------------------------------------------ the instance

  /** A module instance: its exported memory and the global `simplexNoise`. */
  class Instance {
    const memory: Memory
    var simplexNoise: SimplexNoise?

    constructor (memory: Memory)
      ensures this.memory == memory && simplexNoise == null
    {
      this.memory := memory;
      simplexNoise := null;
    }

    /** The four `store<u8>` of one pixel: R, G, B and an opaque alpha. */
    method StorePixel(index: nat, r: Byte, g: Byte, b: Byte)
      requires index + 4 <= |memory.bytes|
      modifies memory
      ensures memory.bytes == old(memory.bytes)[..index] + [r, g, b, MG.Opaque] + old(memory.bytes)[index + 4..]
    {
      memory.StoreU8(index, r);
      memory.StoreU8(index + 1, g);
      memory.StoreU8(index + 2, b);
      memory.StoreU8(index + 3, MG.Opaque);
    }

    /** assembly/index.ts:267-282: the pixel itself, or moved by the noise times the amplitude and clamped into the image. */
    method DisplacedSample(x: nat, y: nat, a: Arguments, noise2D: MG.Noise2D) returns (sampleX: real, sampleY: real)
      requires a.displacementEnabled ==> simplexNoise != null
      ensures (sampleX, sampleY) == SamplePoint(x, y, a, noise2D)
    {
      sampleX, sampleY := x as real, y as real;
      if a.displacementEnabled && simplexNoise != null {
        var noiseX := MG.NoiseAt(x, y, a.displacementFreq, noise2D);
        var noiseY := MG.NoiseAt(x + 1000, y + 1000, a.displacementFreq, noise2D);
        sampleX := MG.Displaced(x, noiseX, a.displacementAmp, a.width);
        sampleY := MG.Displaced(y, noiseY, a.displacementAmp, a.height);
      }
    }

    /** assembly/index.ts:294-310, up to the stores: the grain added to each channel, each clamped to [0, 255] and truncated. */
    static method ShadeColor(color: Color, x: nat, y: nat, a: Arguments) returns (r: Byte, g: Byte, b: Byte)
      ensures [r, g, b, MG.Opaque] == ShadedBytes(color, PixelGrain(x, y, a))
    {
      var finalR, finalG, finalB := color.r, color.g, color.b;
      if a.grainEnabled {
        var grainValue := MG.GrainValue(FastNoise(x, y), a.grainIntensity);
        finalR, finalG, finalB := finalR + grainValue, finalG + grainValue, finalB + grainValue;
      }
      r, g, b := Channel(finalR), Channel(finalG), Channel(finalB);
    }

    /**
     * The body of the pixel loop up to the stores: sample point, colour read
     * from the grid in memory, grain and clamped channels.
     */
    method ShadePixel(x: nat, y: nat, a: Arguments, palette: seq<Color>, noise2D: MG.Noise2D, ghost grid: seq<Byte>)
      returns (r: Byte, g: Byte, b: Byte)
      requires Drawable(a, memory.bytes) && x < a.width && y < a.height && palette == Palette(a)
      requires a.displacementEnabled ==> simplexNoise != null
      requires GridOf(memory.bytes, a.gridPtr) == grid
      ensures PixelReady(a, grid)
      ensures [r, g, b, MG.Opaque] == PixelBytes(x, y, a, grid, noise2D)
    {
      DrawableGrid(a, memory.bytes);
      var sampleX, sampleY := DisplacedSample(x, y, a, noise2D);
      var pixelX, pixelY := Trunc(sampleX), Trunc(sampleY);
      assert (pixelX, pixelY) == SamplePixel(x, y, a, noise2D);
      var color := GetPixelColor(pixelX, pixelY, a.width, a.height, memory.bytes, a.gridPtr, palette);
      GetPixelColorFrame(pixelX, pixelY, a.width, a.height, memory.bytes, a.gridPtr, grid, 0, palette);
      r, g, b := ShadeColor(color, x, y, a);
    }

    /** One pass of the inner pixel loop: pixel (x, y) shaded and its four bytes stored at outputPtr + (y * width + x) * 4. */
    method FillPixel(x: nat, y: nat, a: Arguments, palette: seq<Color>, noise2D: MG.Noise2D,
                     ghost before: seq<Byte>, ghost pixels: MG.PixelFunction)
      requires LoopReady(a, palette, noise2D, before, pixels) && x < a.width && y < a.height
      requires a.displacementEnabled ==> simplexNoise != null
      requires a.outputPtr + 4 * (y * a.width) + 4 * x + 4 <= |before|
      requires memory.bytes == Partial(before, a.outputPtr, pixels, a.width, y, x)
      modifies memory
      ensures memory.bytes == Partial(before, a.outputPtr, pixels, a.width, y, x + 1)
    {
      GridKept(before, a, pixels, y, x);
      ghost var grid := GridOf(before, a.gridPtr);
      var r, g, b := ShadePixel(x, y, a, palette, noise2D, grid);
      StoreAt(x, y, a.outputPtr, a.width, a.height, r, g, b, before, pixels);
    }

    /** The stores of pixel (x, y) at outputPtr + (y * width + x) * 4, which extend the stored prefix by one pixel. */
    method StoreAt(x: nat, y: nat, outputPtr: nat, width: nat, height: nat, r: Byte, g: Byte, b: Byte,
                   ghost before: seq<Byte>, ghost pixels: MG.PixelFunction)
      requires x < width && y < height && 0 <= (y * width + x) * 4 < TwoTo31
      requires MG.WellFormedPixels(pixels) && MG.RowsOk(pixels, width, height)
      requires pixels(x, y) == Success([r, g, b, MG.Opaque])
      requires outputPtr + 4 * (y * width) + 4 * x + 4 <= |before|
      requires memory.bytes == Partial(before, outputPtr, pixels, width, y, x)
      modifies memory
      ensures memory.bytes == Partial(before, outputPtr, pixels, width, y, x + 1)
    {
      ToInt32OfInt32((y * width + x) * 4);
      var index := outputPtr + ToInt32((y * width + x) * 4);
      assert index == outputPtr + 4 * (y * width) + 4 * x;
      StorePixel(index, r, g, b);
      PartialStore(before, outputPtr, pixels, width, height, y, x);
    }

    /** Row y of the pixel loops: every pixel of the row shaded and stored at its offset. */
    method FillRow(y: nat, a: Arguments, palette: seq<Color>, noise2D: MG.Noise2D, ghost before: seq<Byte>, ghost pixels: MG.PixelFunction)
      requires LoopReady(a, palette, noise2D, before, pixels) && y < a.height
      requires a.displacementEnabled ==> simplexNoise != null
      requires a.outputPtr + 4 * (y * a.width) <= |before|
      requires memory.bytes == Partial(before, a.outputPtr, pixels, a.width, y, 0)
      modifies memory
      ensures a.outputPtr + 4 * ((y + 1) * a.width) <= |before|
      ensures memory.bytes == Partial(before, a.outputPtr, pixels, a.width, y + 1, 0)
    {
      assert a.outputPtr + 4 * (y * a.width) + 4 * a.width <= |before| by {
        PixelOffset(a.width, y, a.width, a.height);
      }
      assert MG.WellFormedPixels(pixels) && MG.RowsOk(pixels, a.width, y);
      var x: nat := 0;
      while x < a.width
        invariant x <= a.width
        invariant memory.bytes == Partial(before, a.outputPtr, pixels, a.width, y, x)
      {
        FillPixel(x, y, a, palette, noise2D, before, pixels);
        x := x + 1;
      }
      PartialRowEnd(before, a.outputPtr, pixels, a.width, a.height, y);
    }

    /** The outer pixel loop: rows 0 .. height - 1, each shaded and stored. */
    method FillRows(a: Arguments, palette: seq<Color>, noise2D: MG.Noise2D, ghost before: seq<Byte>, ghost pixels: MG.PixelFunction)
      requires LoopReady(a, palette, noise2D, before, pixels)
      requires a.displacementEnabled ==> simplexNoise != null
      requires memory.bytes == before
      modifies memory
      ensures memory.bytes == Partial(before, a.outputPtr, pixels, a.width, a.height, 0)
    {
      ImageFits(a, before);
      PartialStart(before, a.outputPtr, pixels, a.width);
      var y: nat := 0;
      while y < a.height
        invariant y <= a.height
        invariant a.outputPtr + 4 * (y * a.width) <= |before|
        invariant memory.bytes == Partial(before, a.outputPtr, pixels, a.width, y, 0)
      {
        FillRow(y, a, palette, noise2D, before, pixels);
        y := y + 1;
      }
    }

    /** assembly/index.ts:260-263: the noise generator is created on the first call with displacement, and kept after. */
    method InitNoise(a: Arguments)
      modifies this
      ensures a.displacementEnabled && old(simplexNoise) == null ==>
        simplexNoise != null && fresh(simplexNoise) && simplexNoise.PermTable()
      ensures !(a.displacementEnabled && old(simplexNoise) == null) ==> simplexNoise == old(simplexNoise)
    {
      if a.displacementEnabled && simplexNoise == null {
        simplexNoise := new SimplexNoise();
      }
    }

    /**
     * generateImageFull: the palette unpacked, the noise generator created
     * on the first call with displacement, then every pixel, row by row,
     * stored at outputPtr + (y * width + x) * 4.
     */
    method GenerateImageFull(a: Arguments, noise2D: MG.Noise2D)
      requires Callable(a, memory.bytes)
      modifies this, memory
      ensures a.displacementEnabled && old(simplexNoise) == null ==>
        simplexNoise != null && fresh(simplexNoise) && simplexNoise.PermTable()
      ensures !(a.displacementEnabled && old(simplexNoise) == null) ==> simplexNoise == old(simplexNoise)
      ensures memory.bytes == Render(a, old(memory.bytes), noise2D)
    {
      var palette := Palette(a);
      InitNoise(a);
      ghost var pixels := PlanImage(a, memory.bytes, noise2D);
      FillRows(a, palette, noise2D, memory.bytes, pixels);
    }
  }
}

/**
 * The JavaScript rasterizer of the mesh gradient (src/meshGradient.ts).
 * A 6 x 4 grid of weighted palette references is blended bilinearly per
 * pixel. The sample point may be displaced by a baked quarter-resolution
 * noise map, a hash grain may be added, and the result is written as
 * RGBA bytes.
 *
 * Colour and coordinate arithmetic is over reals, an abstraction of doubles
 * and float32 without rounding. Math.round, Math.floor, Math.min/max and
 * the Uint8Array store are modelled exactly.
 */
module MeshGradient {
  import opened Wrappers
  import opened JsNumber
  import opened JsText

  const Columns: nat := 6
  const Rows: nat := 4
  /** The displacement map has one sample per 4 x 4 pixel block. */
  const NoiseScale: nat := 4
  /** The second displacement map is the first one's noise field shifted by this much. */
  const NoiseOffsetY: int := 1000
  const Opaque: Byte := 255

  /** A grid point: which palette colour, and how far from white toward it. */
  datatype GridPoint = GridPoint(colorIndex: int, influence: real)

  datatype RGB = RGB(r: int, g: int, b: int)

  const White := RGB(255, 255, 255)

  datatype Displacement = Displacement(enabled: bool, frequency: real, amplitude: real)

  datatype Grain = Grain(enabled: bool, intensity: real)

  datatype Options = Options(
    width: nat,
    height: nat,
    colors: seq<JsString>,
    grid: seq<seq<GridPoint>>,
    displacement: Option<Displacement>,
    grain: Option<Grain>)

  /**
   * What generation throws: the Error of the grid check, or the TypeError of
   * reading a property of an undefined grid point or palette entry.
   */
  datatype Error = InvalidGrid | TypeError

  /** The function createNoise2D() returns: simplex noise at a point. */
  type Noise2D = (real, real) -> real

  /** The double nearest to an integer: how a double product is rounded. */
  type ToDouble = int -> int

  predicate InGamut(c: RGB) {
    0 <= c.r <= 255 && 0 <= c.g <= 255 && 0 <= c.b <= 255
  }

  /** The check before rendering: exactly 4 rows of exactly 6 points. */
  predicate ValidGrid(grid: seq<seq<GridPoint>>) {
    |grid| == Rows && forall row :: 0 <= row < |grid| ==> |grid[row]| == Columns
  }

  predicate DisplacementOn(opts: Options) {
    opts.displacement.Some? && opts.displacement.value.enabled
  }

  predicate GrainOn(opts: Options) {
    opts.grain.Some? && opts.grain.value.enabled
  }

  function MinInt(a: int, b: int): int {
    if a <= b then a else b
  }

  function MinReal(a: real, b: real): real {
    if a <= b then a else b
  }

  function MaxReal(a: real, b: real): real {
    if a <= b then b else a
  }

  // ---------------------------------------------------------------- hexToRgb

  const NumberSign: CodeUnit := '#' as int

  /** `hex.replace(/^#/, '')`, then a 3-digit code expanded by doubling each digit. */
  function NormalizeHex(hex: JsString): (n: JsString)
    ensures |n| <= |hex| || |n| == 6
  {
    var h := if hex != [] && hex[0] == NumberSign then hex[1..] else hex;
    if |h| == 3 then [h[0], h[0], h[1], h[1], h[2], h[2]] else h
  }

  /** hexToRgb: channels `(num >> 16) & 255`, `(num >> 8) & 255`, `num & 255` of `parseInt(hex, 16)`. */
  function HexToRgb(hex: JsString): (c: RGB)
    ensures InGamut(c)
  {
    // NaN converts to the int32 0 before shifting
    var num := ParseInt16(NormalizeHex(hex)).GetOr(0);
    RGB(LowByte(ShiftRight(num, 16)), LowByte(ShiftRight(num, 8)), LowByte(num))
  }

  /** Six hex digits (after an optional `#`) give channels that recombine to the parsed number. */
  lemma HexToRgbSixDigits(hex: JsString)
    requires |NormalizeHex(hex)| == 6 && AllDigits(NormalizeHex(hex), 16)
    ensures var c := HexToRgb(hex);
      c.r * 0x1_0000 + c.g * 0x100 + c.b == DigitsValue(NormalizeHex(hex), 16)
  {
    var n := DigitsValue(NormalizeHex(hex), 16);
    ParseSixHexDigits(NormalizeHex(hex));
    ByteChannels(n);
    SplitBytes(n);
  }

  /** For a 24-bit number the shifts and masks of hexToRgb are plain base-256 digits. */
  lemma ByteChannels(n: int)
    requires 0 <= n < 0x100_0000
    ensures LowByte(ShiftRight(n, 16)) == (n / 0x1_0000) % 0x100
    ensures LowByte(ShiftRight(n, 8)) == (n / 0x100) % 0x100
    ensures LowByte(n) == n % 0x100
  {
    Pow2Values();
    ToInt32OfInt32(n);
    ToInt32OfInt32(n / 0x1_0000);
    ToInt32OfInt32(n / 0x100);
  }

  lemma SplitBytes(n: int)
    requires 0 <= n < 0x100_0000
    ensures ((n / 0x1_0000) % 0x100) * 0x1_0000 + ((n / 0x100) % 0x100) * 0x100 + n % 0x100 == n
  {
    var high := n / 0x1_0000;
    var mid := n / 0x100;
    assert mid == high * 0x100 + mid % 0x100;
    assert high % 0x100 == high;
    assert n == mid * 0x100 + n % 0x100;
  }

  /** A 3-digit code `#rgb` is the colour (17r, 17g, 17b): each digit is doubled. */
  lemma ShortFormChannels(d0: CodeUnit, d1: CodeUnit, d2: CodeUnit)
    requires DigitValue(d0) < 16 && DigitValue(d1) < 16 && DigitValue(d2) < 16
    ensures HexToRgb([NumberSign, d0, d1, d2]) == HexToRgb([d0, d1, d2])
    ensures HexToRgb([d0, d1, d2]) == RGB(17 * DigitValue(d0), 17 * DigitValue(d1), 17 * DigitValue(d2))
  {
    var s: JsString := [d0, d1, d2];
    assert NormalizeHex(s) == [d0, d0, d1, d1, d2, d2];
    assert NormalizeHex([NumberSign, d0, d1, d2]) == NormalizeHex(s) by {
      assert [NumberSign, d0, d1, d2][1..] == s;
    }
    DoubledDigitsValue(d0, d1, d2);
    HexToRgbSixDigits(s);
    var c := HexToRgb(s);
    ChannelsUnique(c.r, c.g, c.b, 17 * DigitValue(d0), 17 * DigitValue(d1), 17 * DigitValue(d2));
  }

  lemma DoubledDigitsValue(d0: CodeUnit, d1: CodeUnit, d2: CodeUnit)
    requires DigitValue(d0) < 16 && DigitValue(d1) < 16 && DigitValue(d2) < 16
    ensures AllDigits([d0, d0, d1, d1, d2, d2], 16)
    ensures DigitsValue([d0, d0, d1, d1, d2, d2], 16)
      == (17 * DigitValue(d0)) * 0x1_0000 + (17 * DigitValue(d1)) * 0x100 + 17 * DigitValue(d2)
  {
    var v0, v1, v2 := DigitValue(d0), DigitValue(d1), DigitValue(d2);
    DigitsValueAppend([], d0, 16);
    assert [] + [d0] == [d0];
    DigitsValueAppend([d0], d0, 16);
    assert [d0] + [d0] == [d0, d0];
    DigitsValueAppend([d0, d0], d1, 16);
    assert [d0, d0] + [d1] == [d0, d0, d1];
    DigitsValueAppend([d0, d0, d1], d1, 16);
    assert [d0, d0, d1] + [d1] == [d0, d0, d1, d1];
    DigitsValueAppend([d0, d0, d1, d1], d2, 16);
    assert [d0, d0, d1, d1] + [d2] == [d0, d0, d1, d1, d2];
    DigitsValueAppend([d0, d0, d1, d1, d2], d2, 16);
    assert [d0, d0, d1, d1, d2] + [d2] == [d0, d0, d1, d1, d2, d2];
  }

  lemma ChannelsUnique(r: int, g: int, b: int, r': int, g': int, b': int)
    requires 0 <= r < 256 && 0 <= g < 256 && 0 <= b < 256
    requires 0 <= r' < 256 && 0 <= g' < 256 && 0 <= b' < 256
    requires r * 0x1_0000 + g * 0x100 + b == r' * 0x1_0000 + g' * 0x100 + b'
    ensures r == r' && g == g' && b == b'
  {
  }

  // --------------------------------------------------------------- fastNoise

  /** fastNoise: a hash of the 2 x 2 pixel block of (x, y), normalised to [-1, 1]. */
  function FastNoise(x: int, y: int, toDouble: ToDouble): (v: real)
    ensures -1.0 <= v <= 1.0
  {
    var h := BlockHash(Floor(x as real * 0.5), Floor(y as real * 0.5), toDouble);
    Normalize(Low31(h))
  }

  /** `(m / 0x7FFFFFFF) * 2.0 - 1.0`, for the masked hash m. */
  function Normalize(m: int): (v: real)
    requires 0 <= m <= 0x7FFF_FFFF
    ensures -1.0 <= v <= 1.0
    ensures m == 0 ==> v == -1.0
    ensures m == 0x7FFF_FFFF ==> v == 1.0
  {
    (m as real / 0x7FFF_FFFF as real) * 2.0 - 1.0
  }

  /** The hash of fastNoise as a 32-bit pattern, for integer block coordinates. */
  function BlockHash(ix: int, iy: int, toDouble: ToDouble): bv32 {
    var hash := ix * 374761393 + iy * 668265263;
    // `hash ^ (hash >>> 13)` is an int32; its product with 1274126177 is a double
    var mixed := toDouble(Signed(Bits(hash) ^ (Bits(hash) >> 13)) * 1274126177);
    Bits(mixed) ^ (Bits(mixed) >> 16)
  }

  lemma HalfFloor(x: int)
    ensures Floor(x as real * 0.5) == x / 2
  {
    var q := x / 2;
    assert x == 2 * q + x % 2;
    assert q as real <= x as real * 0.5 < q as real + 1.0;
  }

  /** Pixels of one aligned 2 x 2 block share their grain value. */
  lemma FastNoiseBlock(x1: int, y1: int, x2: int, y2: int, toDouble: ToDouble)
    requires x1 / 2 == x2 / 2 && y1 / 2 == y2 / 2
    ensures FastNoise(x1, y1, toDouble) == FastNoise(x2, y2, toDouble)
  {
    HalfFloor(x1);
    HalfFloor(x2);
    HalfFloor(y1);
    HalfFloor(y2);
  }

  // -------------------------------------------------------- colour blending

  /** `a + (b - a) * t`. */
  function Lerp(a: real, b: real, t: real): (v: real)
    ensures t == 0.0 ==> v == a
    ensures t == 1.0 ==> v == b
    ensures a == b ==> v == a
    ensures 0.0 <= t <= 1.0 ==> MinReal(a, b) <= v <= MaxReal(a, b)
  {
    LerpBetween(a, b, t);
    a + (b - a) * t
  }

  lemma LerpBetween(a: real, b: real, t: real)
    ensures 0.0 <= t <= 1.0 ==> MinReal(a, b) <= a + (b - a) * t <= MaxReal(a, b)
  {
    if 0.0 <= t <= 1.0 {
      var s := (b - a) * t;
      if a <= b {
        ScaleBetween(b - a, t, s);
        assert a <= a + s <= b;
      } else {
        ScaleBetweenNegative(b - a, t, s);
        assert b <= a + s <= a;
      }
    }
  }

  /** A product s = d * t with t in [0, 1] lies between 0 and d. */
  lemma ScaleBetween(d: real, t: real, s: real)
    requires d >= 0.0 && 0.0 <= t <= 1.0 && s == d * t
    ensures 0.0 <= s <= d
  {
    assert d * t <= d * 1.0;
  }

  lemma ScaleBetweenNegative(d: real, t: real, s: real)
    requires d <= 0.0 && 0.0 <= t <= 1.0 && s == d * t
    ensures d <= s <= 0.0
  {
    assert d * 1.0 <= d * t;
  }

  /** One channel of interpolateColor: `Math.round(c1 + (c2 - c1) * t)`. */
  function MixChannel(a: int, b: int, t: real): (n: int)
    ensures t == 0.0 ==> n == a
    ensures t == 1.0 ==> n == b
    ensures a == b ==> n == a
    ensures 0.0 <= t <= 1.0 ==> (a <= n <= b || b <= n <= a)
  {
    var v := Lerp(a as real, b as real, t);
    RoundOfInteger(a);
    RoundOfInteger(b);
    Round(v)
  }

  /** interpolateColor: each channel blended and rounded. */
  function InterpolateColor(color1: RGB, color2: RGB, t: real): (c: RGB)
    ensures t == 0.0 ==> c == color1
    ensures t == 1.0 ==> c == color2
    ensures color1 == color2 ==> c == color1
    ensures 0.0 <= t <= 1.0 && InGamut(color1) && InGamut(color2) ==> InGamut(c)
  {
    RGB(MixChannel(color1.r, color2.r, t), MixChannel(color1.g, color2.g, t), MixChannel(color1.b, color2.b, t))
  }

  /** blendColorWithInfluence: from white toward the colour by the influence. */
  function BlendColorWithInfluence(color: RGB, influence: real): (c: RGB)
    ensures influence == 0.0 ==> c == White
    ensures influence == 1.0 ==> c == color
    ensures 0.0 <= influence <= 1.0 && InGamut(color) ==> InGamut(c)
  {
    InterpolateColor(White, color, influence)
  }

  /** bilinearInterpolate: top edge, bottom edge, then between them. */
  function BilinearInterpolate(topLeft: RGB, topRight: RGB, bottomLeft: RGB, bottomRight: RGB, tx: real, ty: real): (c: RGB)
    ensures topLeft == topRight == bottomLeft == bottomRight ==> c == topLeft
    ensures tx == 0.0 && ty == 0.0 ==> c == topLeft
    ensures tx == 1.0 && ty == 0.0 ==> c == topRight
    ensures tx == 0.0 && ty == 1.0 ==> c == bottomLeft
    ensures tx == 1.0 && ty == 1.0 ==> c == bottomRight
    ensures (0.0 <= tx <= 1.0 && 0.0 <= ty <= 1.0 && InGamut(topLeft) && InGamut(topRight)
             && InGamut(bottomLeft) && InGamut(bottomRight)) ==> InGamut(c)
  {
    var top := InterpolateColor(topLeft, topRight, tx);
    var bottom := InterpolateColor(bottomLeft, bottomRight, tx);
    InterpolateColor(top, bottom, ty)
  }

  // ----------------------------------------------------------- getPixelColor

  /** A grid cell and the position inside it. */
  datatype Cell = Cell(cellX: int, cellY: int, tx: real, ty: real)

  /** Grid coordinates `x / (width - 1) * 5`, `y / (height - 1) * 3`, the cell clamped to the last one. */
  function Locate(x: real, y: real, width: int, height: int): (c: Cell)
    requires width >= 2 && height >= 2
    ensures c.cellX <= 4 && c.cellY <= 2
    ensures c.cellX as real + c.tx == x / (width - 1) as real * 5.0
    ensures c.cellY as real + c.ty == y / (height - 1) as real * 3.0
    ensures x < 0.0 ==> c.cellX < 0
    ensures y < 0.0 ==> c.cellY < 0
    ensures 0.0 <= x <= (width - 1) as real ==>
      0 <= c.cellX && 0.0 <= c.tx <= 1.0 && (c.tx == 1.0 <==> x == (width - 1) as real)
    ensures 0.0 <= y <= (height - 1) as real ==>
      0 <= c.cellY && 0.0 <= c.ty <= 1.0 && (c.ty == 1.0 <==> y == (height - 1) as real)
  {
    var gridX := x / (width - 1) as real * 5.0;
    var gridY := y / (height - 1) as real * 3.0;
    UnitQuotient(x, (width - 1) as real);
    UnitQuotient(y, (height - 1) as real);
    var cellX := MinInt(Floor(gridX), 4);
    var cellY := MinInt(Floor(gridY), 2);
    Cell(cellX, cellY, gridX - cellX as real, gridY - cellY as real)
  }

  lemma UnitQuotient(x: real, d: real)
    requires d > 0.0
    ensures x < 0.0 ==> x / d < 0.0
    ensures 0.0 <= x <= d ==> 0.0 <= x / d <= 1.0 && (x / d == 1.0 <==> x == d)
  {
    assert (x / d) * d == x;
  }

  /** palette[point.colorIndex], blended by point.influence; an undefined colour throws. */
  function CornerColor(palette: seq<RGB>, point: GridPoint): (r: Result<RGB, Error>)
    ensures r.Success? <==> 0 <= point.colorIndex < |palette|
  {
    if 0 <= point.colorIndex < |palette| then
      Success(BlendColorWithInfluence(palette[point.colorIndex], point.influence))
    else
      Failure(TypeError)
  }

  /** Every grid point names a palette entry. */
  predicate IndicesInPalette(grid: seq<seq<GridPoint>>, palette: seq<RGB>)
    requires ValidGrid(grid)
  {
    forall row, col :: 0 <= row < Rows && 0 <= col < Columns ==> 0 <= grid[row][col].colorIndex < |palette|
  }

  /** Every palette colour is in gamut and every influence lies in [0, 1]. */
  predicate InGamutInputs(grid: seq<seq<GridPoint>>, palette: seq<RGB>)
    requires ValidGrid(grid)
  {
    && (forall i :: 0 <= i < |palette| ==> InGamut(palette[i]))
    && (forall row, col :: 0 <= row < Rows && 0 <= col < Columns ==> 0.0 <= grid[row][col].influence <= 1.0)
  }

  /** getPixelColor. */
  function GetPixelColor(x: real, y: real, width: int, height: int, grid: seq<seq<GridPoint>>, palette: seq<RGB>): (r: Result<RGB, Error>)
    requires width >= 2 && height >= 2 && ValidGrid(grid)
    ensures x < 0.0 || y < 0.0 ==> r == Failure(TypeError)
    ensures 0.0 <= x && 0.0 <= y && IndicesInPalette(grid, palette) ==> r.Success?
    ensures (0.0 <= x <= (width - 1) as real && 0.0 <= y <= (height - 1) as real && r.Success?
             && InGamutInputs(grid, palette)) ==> InGamut(r.value)
  {
    var c := Locate(x, y, width, height);
    if c.cellX < 0 || c.cellY < 0 then
      Failure(TypeError)
    else
      var topLeft := grid[c.cellY][c.cellX];
      var topRight := grid[c.cellY][c.cellX + 1];
      var bottomLeft := grid[c.cellY + 1][c.cellX];
      var bottomRight := grid[c.cellY + 1][c.cellX + 1];
      match (CornerColor(palette, topLeft), CornerColor(palette, topRight),
             CornerColor(palette, bottomLeft), CornerColor(palette, bottomRight))
      case (Success(tl), Success(tr), Success(bl), Success(br)) =>
        Success(BilinearInterpolate(tl, tr, bl, br, c.tx, c.ty))
      case _ => Failure(TypeError)
  }

  /** On a grid of one repeated point every in-image sample gets that point's blended colour. */
  lemma UniformGridColor(x: real, y: real, width: int, height: int, grid: seq<seq<GridPoint>>, palette: seq<RGB>, point: GridPoint)
    requires width >= 2 && height >= 2 && ValidGrid(grid)
    requires forall row, col :: 0 <= row < Rows && 0 <= col < Columns ==> grid[row][col] == point
    requires 0 <= point.colorIndex < |palette|
    requires 0.0 <= x && 0.0 <= y
    ensures GetPixelColor(x, y, width, height, grid, palette)
      == Success(BlendColorWithInfluence(palette[point.colorIndex], point.influence))
  {
    var c := Locate(x, y, width, height);
    assert grid[c.cellY][c.cellX] == point && grid[c.cellY][c.cellX + 1] == point;
    assert grid[c.cellY + 1][c.cellX] == point && grid[c.cellY + 1][c.cellX + 1] == point;
  }

  // ------------------------------------------------------- displacement map

  /** Math.ceil(n / 4): the side of the displacement map for an image side of n. */
  function NoiseDim(n: nat): (d: nat)
    ensures d == (n + NoiseScale - 1) / NoiseScale
  {
    CeilOfQuotient(n, NoiseScale);
    Ceil(n as real / NoiseScale as real) as nat
  }

  /** The noise field sampled at a pixel position scaled by the frequency. */
  function NoiseAt(realX: int, realY: int, frequency: real, noise2D: Noise2D): real {
    noise2D(realX as real * frequency, realY as real * frequency)
  }

  /** A baked displacement map, row-major: entry y * noiseWidth + x holds the noise at pixel (4x + offset, 4y + offset). */
  function DisplacementMap(noiseWidth: nat, noiseHeight: nat, frequency: real, offset: int, noise2D: Noise2D): (m: seq<real>)
    ensures |m| == noiseWidth * noiseHeight
  {
    seq(noiseWidth * noiseHeight, i requires 0 <= i < noiseWidth * noiseHeight =>
      NoiseAt(i % noiseWidth * NoiseScale + offset, i / noiseWidth * NoiseScale + offset, frequency, noise2D))
  }

  /** The first n entries of m are those of spec. */
  ghost predicate BakedPrefix(m: seq<real>, n: nat, spec: seq<real>) {
    n <= |m| == |spec| && forall i :: 0 <= i < n ==> m[i] == spec[i]
  }

  /** The baking loop (src/meshGradient.ts:58-69): every index y * noiseWidth + x is written once, with its noise. */
  method BakeDisplacementMaps(noiseWidth: nat, noiseHeight: nat, frequency: real, noise2D: Noise2D)
    returns (displacementMapX: array<real>, displacementMapY: array<real>)
    ensures fresh(displacementMapX) && fresh(displacementMapY)
    ensures displacementMapX[..] == DisplacementMap(noiseWidth, noiseHeight, frequency, 0, noise2D)
    ensures displacementMapY[..] == DisplacementMap(noiseWidth, noiseHeight, frequency, NoiseOffsetY, noise2D)
  {
    ghost var specX := DisplacementMap(noiseWidth, noiseHeight, frequency, 0, noise2D);
    ghost var specY := DisplacementMap(noiseWidth, noiseHeight, frequency, NoiseOffsetY, noise2D);
    displacementMapX := new real[noiseWidth * noiseHeight];
    displacementMapY := new real[noiseHeight * noiseWidth];
    assert displacementMapY.Length == |specY|;
    var y := 0;
    while y < noiseHeight
      invariant 0 <= y <= noiseHeight
      invariant BakedPrefix(displacementMapX[..], y * noiseWidth, specX)
      invariant BakedPrefix(displacementMapY[..], y * noiseWidth, specY)
    {
      BakeRow(y, noiseWidth, noiseHeight, frequency, noise2D, displacementMapX, displacementMapY);
      y := y + 1;
    }
    assert displacementMapX[..] == specX;
    assert displacementMapY[..] == specY;
  }

  /** One pass of the outer baking loop: row y of both maps. */
  method BakeRow(y: nat, noiseWidth: nat, noiseHeight: nat, frequency: real, noise2D: Noise2D,
                 displacementMapX: array<real>, displacementMapY: array<real>)
    requires y < noiseHeight && displacementMapX != displacementMapY
    requires BakedPrefix(displacementMapX[..], y * noiseWidth, DisplacementMap(noiseWidth, noiseHeight, frequency, 0, noise2D))
    requires BakedPrefix(displacementMapY[..], y * noiseWidth, DisplacementMap(noiseWidth, noiseHeight, frequency, NoiseOffsetY, noise2D))
    modifies displacementMapX, displacementMapY
    ensures BakedPrefix(displacementMapX[..], (y + 1) * noiseWidth, DisplacementMap(noiseWidth, noiseHeight, frequency, 0, noise2D))
    ensures BakedPrefix(displacementMapY[..], (y + 1) * noiseWidth, DisplacementMap(noiseWidth, noiseHeight, frequency, NoiseOffsetY, noise2D))
  {
    ghost var specX := DisplacementMap(noiseWidth, noiseHeight, frequency, 0, noise2D);
    ghost var specY := DisplacementMap(noiseWidth, noiseHeight, frequency, NoiseOffsetY, noise2D);
    var x := 0;
    while x < noiseWidth
      invariant 0 <= x <= noiseWidth
      invariant BakedPrefix(displacementMapX[..], y * noiseWidth + x, specX)
      invariant BakedPrefix(displacementMapY[..], y * noiseWidth + x, specY)
    {
      BakeCell(x, y, noiseWidth, noiseHeight, frequency, noise2D, displacementMapX, displacementMapY);
      x := x + 1;
    }
    assert y * noiseWidth + noiseWidth == (y + 1) * noiseWidth;
  }

  /** The body of the inner baking loop: entry y * noiseWidth + x of both maps. */
  method BakeCell(x: nat, y: nat, noiseWidth: nat, noiseHeight: nat, frequency: real, noise2D: Noise2D,
                  displacementMapX: array<real>, displacementMapY: array<real>)
    requires x < noiseWidth && y < noiseHeight && displacementMapX != displacementMapY
    requires BakedPrefix(displacementMapX[..], y * noiseWidth + x, DisplacementMap(noiseWidth, noiseHeight, frequency, 0, noise2D))
    requires BakedPrefix(displacementMapY[..], y * noiseWidth + x, DisplacementMap(noiseWidth, noiseHeight, frequency, NoiseOffsetY, noise2D))
    modifies displacementMapX, displacementMapY
    ensures BakedPrefix(displacementMapX[..], y * noiseWidth + x + 1, DisplacementMap(noiseWidth, noiseHeight, frequency, 0, noise2D))
    ensures BakedPrefix(displacementMapY[..], y * noiseWidth + x + 1, DisplacementMap(noiseWidth, noiseHeight, frequency, NoiseOffsetY, noise2D))
  {
    var realX := x * NoiseScale;
    var realY := y * NoiseScale;
    var idx := y * noiseWidth + x;
    BakedEntry(x, y, noiseWidth, noiseHeight, frequency, 0, noise2D);
    BakedEntry(x, y, noiseWidth, noiseHeight, frequency, NoiseOffsetY, noise2D);
    displacementMapX[idx] := NoiseAt(realX, realY, frequency, noise2D);
    displacementMapY[idx] := NoiseAt(realX + 1000, realY + 1000, frequency, noise2D);
  }

  lemma BakedEntry(x: nat, y: nat, noiseWidth: nat, noiseHeight: nat, frequency: real, offset: int, noise2D: Noise2D)
    requires x < noiseWidth && y < noiseHeight
    ensures 0 <= y * noiseWidth + x < noiseWidth * noiseHeight
    ensures DisplacementMap(noiseWidth, noiseHeight, frequency, offset, noise2D)[y * noiseWidth + x]
      == NoiseAt(x * NoiseScale + offset, y * NoiseScale + offset, frequency, noise2D)
  {
    RowMajorIndex(x, y, noiseWidth, noiseHeight);
  }

  /** The four neighbouring map cells of a pixel and its position between them. */
  datatype Corners = Corners(x0: int, y0: int, x1: int, y1: int, tx: real, ty: real)

  /** The cell arithmetic of sampleNoiseMap. */
  function NoiseCorners(x: int, y: int, mapWidth: int, mapHeight: int, scale: int): (c: Corners)
    requires scale > 0
    ensures 0.0 <= c.tx < 1.0 && 0.0 <= c.ty < 1.0
    ensures c.x1 <= mapWidth - 1 && c.y1 <= mapHeight - 1
  {
    var mapX := x as real / scale as real;
    var mapY := y as real / scale as real;
    var x0 := Floor(mapX);
    var y0 := Floor(mapY);
    Corners(x0, y0, MinInt(x0 + 1, mapWidth - 1), MinInt(y0 + 1, mapHeight - 1), mapX - x0 as real, mapY - y0 as real)
  }

  /** A Float32Array read: an index outside the array gives undefined. */
  function Lookup(values: seq<real>, i: int): (v: Option<real>)
    ensures v.Some? <==> 0 <= i < |values|
    ensures v.Some? ==> v.value == values[i]
  {
    if 0 <= i < |values| then Some(values[i]) else None
  }

  /**
   * sampleNoiseMap: bilinear interpolation between the four neighbouring
   * map cells. None stands for NaN, the result when a read is undefined.
   */
  function SampleNoiseMap(noiseMap: seq<real>, x: int, y: int, mapWidth: int, mapHeight: int, scale: int): (v: Option<real>)
    requires scale > 0
    ensures var c := NoiseCorners(x, y, mapWidth, mapHeight, scale);
      v.Some? <==> (0 <= c.y0 * mapWidth + c.x0 < |noiseMap| && 0 <= c.y0 * mapWidth + c.x1 < |noiseMap|
                    && 0 <= c.y1 * mapWidth + c.x0 < |noiseMap| && 0 <= c.y1 * mapWidth + c.x1 < |noiseMap|)
  {
    var c := NoiseCorners(x, y, mapWidth, mapHeight, scale);
    match (Lookup(noiseMap, c.y0 * mapWidth + c.x0), Lookup(noiseMap, c.y0 * mapWidth + c.x1),
           Lookup(noiseMap, c.y1 * mapWidth + c.x0), Lookup(noiseMap, c.y1 * mapWidth + c.x1))
    case (Some(v00), Some(v10), Some(v01), Some(v11)) =>
      var v0 := Lerp(v00, v10, c.tx);
      var v1 := Lerp(v01, v11, c.tx);
      Some(Lerp(v0, v1, c.ty))
    case _ => None
  }

  /** A sample never leaves the range of the map's values: displacement is at most amplitude times the noise bound. */
  lemma SampleNoiseMapBounded(noiseMap: seq<real>, x: int, y: int, mapWidth: int, mapHeight: int, scale: int, bound: real)
    requires scale > 0
    requires forall i :: 0 <= i < |noiseMap| ==> -bound <= noiseMap[i] <= bound
    ensures var v := SampleNoiseMap(noiseMap, x, y, mapWidth, mapHeight, scale);
      v.Some? ==> -bound <= v.value <= bound
  {
  }

  /** At every pixel of the image the four map reads of sampleNoiseMap stay inside the map. */
  lemma NoiseCornersInRange(x: int, y: int, width: nat, height: nat)
    requires 0 <= x < width && 0 <= y < height
    ensures var c := NoiseCorners(x, y, NoiseDim(width), NoiseDim(height), NoiseScale);
      var w, h := NoiseDim(width), NoiseDim(height);
      && 0 <= c.x0 <= c.x1 < w && 0 <= c.y0 <= c.y1 < h
      && 0 <= c.y0 * w + c.x0 < w * h && 0 <= c.y0 * w + c.x1 < w * h
      && 0 <= c.y1 * w + c.x0 < w * h && 0 <= c.y1 * w + c.x1 < w * h
  {
    var w, h := NoiseDim(width), NoiseDim(height);
    var c := NoiseCorners(x, y, w, h, NoiseScale);
    QuarterBelow(x, width);
    QuarterBelow(y, height);
    RowMajorIndex(c.x0, c.y0, w, h);
    RowMajorIndex(c.x1, c.y0, w, h);
    RowMajorIndex(c.x0, c.y1, w, h);
    RowMajorIndex(c.x1, c.y1, w, h);
  }

  /** floor(x / 4) is a cell of a map of side ceil(n / 4) when 0 <= x < n. */
  lemma QuarterBelow(x: int, n: nat)
    requires 0 <= x < n
    ensures 0 <= Floor(x as real / NoiseScale as real) < NoiseDim(n)
  {
    var d := NoiseDim(n);
    assert d * 4 >= n;
    assert x as real / 4.0 < d as real;
  }

  /** So the sample is defined at every pixel of the image. */
  lemma SampleNoiseMapDefined(noiseMap: seq<real>, x: int, y: int, width: nat, height: nat)
    requires 0 <= x < width && 0 <= y < height
    requires |noiseMap| == NoiseDim(width) * NoiseDim(height)
    ensures SampleNoiseMap(noiseMap, x, y, NoiseDim(width), NoiseDim(height), NoiseScale).Some?
  {
    NoiseCornersInRange(x, y, width, height);
  }

  // -------------------------------------------------------------- the pixels

  /**
   * The point the colour is sampled at: the pixel itself, or with
   * displacement the pixel moved by the map samples times the amplitude and
   * clamped into the image. None stands for NaN coordinates.
   */
  function SamplePoint(x: nat, y: nat, opts: Options, mapX: seq<real>, mapY: seq<real>): (r: Option<(real, real)>)
    ensures !DisplacementOn(opts) ==> r == Some((x as real, y as real))
    ensures (DisplacementOn(opts) && r.Some? && opts.width >= 1 && opts.height >= 1) ==>
      0.0 <= r.value.0 <= (opts.width - 1) as real && 0.0 <= r.value.1 <= (opts.height - 1) as real
  {
    if DisplacementOn(opts) then
      var amplitude := opts.displacement.value.amplitude;
      var noiseWidth, noiseHeight := NoiseDim(opts.width), NoiseDim(opts.height);
      match (SampleNoiseMap(mapX, x, y, noiseWidth, noiseHeight, NoiseScale),
             SampleNoiseMap(mapY, x, y, noiseWidth, noiseHeight, NoiseScale))
      case (Some(noiseX), Some(noiseY)) =>
        Some((Displaced(x, noiseX, amplitude, opts.width), Displaced(y, noiseY, amplitude, opts.height)))
      case _ => None
    else
      Some((x as real, y as real))
  }

  /** A pixel coordinate moved by the noise sample times the amplitude, clamped into [0, size - 1]. */
  function Displaced(coordinate: nat, noise: real, amplitude: real, size: nat): (r: real)
    ensures size >= 1 ==> 0.0 <= r <= (size - 1) as real
    ensures (size >= 1 && coordinate < size && noise * amplitude == 0.0) ==> r == coordinate as real
  {
    Clamp(0.0, (size - 1) as real, coordinate as real + noise * amplitude)
  }

  /** The grain added to each channel: the pixel's hash noise times the intensity times 255. */
  function GrainValue(noise: real, intensity: real): (g: real)
    ensures (-1.0 <= noise <= 1.0 && 0.0 <= intensity) ==> -intensity * 255.0 <= g <= intensity * 255.0
  {
    SignedScale(noise, intensity);
    noise * intensity * 255.0
  }

  /** A noise value in [-1, 1] scaled by a non-negative d stays within [-d, d]. */
  lemma SignedScale(n: real, d: real)
    ensures (-1.0 <= n <= 1.0 && 0.0 <= d) ==> -d <= n * d <= d
  {
    if -1.0 <= n <= 1.0 && 0.0 <= d {
      NonNegativeProduct(1.0 - n, d);
      NonNegativeProduct(n + 1.0, d);
      assert (1.0 - n) * d == d - n * d;
      assert (n + 1.0) * d == n * d + d;
    }
  }

  lemma NonNegativeProduct(a: real, b: real)
    requires 0.0 <= a && 0.0 <= b
    ensures 0.0 <= a * b
  {
  }

  /** One colour channel as stored: with grain, the grain added and clamped to [0, 255]; then the Uint8Array conversion. */
  function Shade(channel: int, grainValue: Option<real>): (b: Byte)
    ensures grainValue.Some? ==> b == Clamp(0.0, 255.0, channel as real + grainValue.value).Floor
    ensures grainValue.None? && 0 <= channel <= 255 ==> b == channel
  {
    match grainValue
    case None => ToUint8(channel as real)
    case Some(g) => ToUint8(Clamp(0.0, 255.0, channel as real + g))
  }

  /** The four bytes the pixel loop writes for pixel (x, y), or what it throws there. */
  function PixelBytes(x: nat, y: nat, opts: Options, palette: seq<RGB>, mapX: seq<real>, mapY: seq<real>, toDouble: ToDouble): (r: Result<seq<Byte>, Error>)
    requires ValidGrid(opts.grid) && opts.width >= 2 && opts.height >= 2
    ensures r.Success? ==> |r.value| == 4 && r.value[3] == Opaque
    ensures r.Failure? ==> r.error == TypeError
  {
    match SamplePoint(x, y, opts, mapX, mapY)
    case None => Failure(TypeError)
    case Some((sampleX, sampleY)) =>
      match GetPixelColor(sampleX, sampleY, opts.width, opts.height, opts.grid, palette)
      case Failure(e) => Failure(e)
      case Success(color) => Success(ShadedBytes(color, PixelGrain(x, y, opts, toDouble)))
  }

  /** The grain offset of pixel (x, y), when grain is enabled. */
  function PixelGrain(x: nat, y: nat, opts: Options, toDouble: ToDouble): (g: Option<real>)
    ensures g.Some? <==> GrainOn(opts)
  {
    if GrainOn(opts) then Some(GrainValue(FastNoise(x, y, toDouble), opts.grain.value.intensity)) else None
  }

  /** The four bytes stored for a pixel of colour c: its shaded channels and an opaque alpha. */
  function ShadedBytes(c: RGB, grainValue: Option<real>): (p: seq<Byte>)
    ensures |p| == 4 && p[3] == Opaque
    ensures forall i :: 0 <= i < 3 ==> p[i] == Shade([c.r, c.g, c.b][i], grainValue)
  {
    [Shade(c.r, grainValue), Shade(c.g, grainValue), Shade(c.b, grainValue), Opaque]
  }

  /** The outcome of each pixel (x, y): its four bytes, or what the loop throws there. */
  type PixelFunction = (nat, nat) -> Result<seq<Byte>, Error>

  /** Every success is four bytes ending in an opaque alpha, and every failure a TypeError. */
  ghost predicate WellFormedPixels(pixel: PixelFunction) {
    forall x: nat, y: nat ::
      if pixel(x, y).Success? then |pixel(x, y).value| == 4 && pixel(x, y).value[3] == Opaque
      else pixel(x, y).error == TypeError
  }

  /** Pixels 0 .. n - 1 of row y succeed. */
  predicate RowOk(pixel: PixelFunction, y: nat, n: nat) {
    forall x: nat :: x < n ==> pixel(x, y).Success?
  }

  /** Every pixel of rows 0 .. m - 1 succeeds. */
  predicate RowsOk(pixel: PixelFunction, width: nat, m: nat) {
    forall x: nat, y: nat :: x < width && y < m ==> pixel(x, y).Success?
  }

  /** The pixels of the mesh gradient, as the body of the pixel loop computes them. */
  function PixelsOf(opts: Options, palette: seq<RGB>, mapX: seq<real>, mapY: seq<real>, toDouble: ToDouble): (pixel: PixelFunction)
    ensures WellFormedPixels(pixel)
  {
    (x: nat, y: nat) =>
      if ValidGrid(opts.grid) && opts.width >= 2 && opts.height >= 2 then PixelBytes(x, y, opts, palette, mapX, mapY, toDouble)
      else Failure(TypeError)
  }

  /**
   * pixels agrees with the pixel computation. The link is only made for
   * pixels whose PixelBytes term is at hand, so that reasoning about
   * pixels(x, y) elsewhere does not unfold the computation.
   */
  ghost predicate Computes(pixels: PixelFunction, opts: Options, palette: seq<RGB>, mapX: seq<real>, mapY: seq<real>, toDouble: ToDouble)
    requires ValidGrid(opts.grid) && opts.width >= 2 && opts.height >= 2
  {
    forall x: nat, y: nat {:trigger PixelBytes(x, y, opts, palette, mapX, mapY, toDouble)} ::
      pixels(x, y) == PixelBytes(x, y, opts, palette, mapX, mapY, toDouble)
  }

  /** Every fourth byte, the alpha of a pixel, is opaque. */
  predicate AlphaOpaque(data: seq<Byte>) {
    forall i :: 0 <= i < |data| && i % 4 == 3 ==> data[i] == Opaque
  }

  lemma AlphaAppend(a: seq<Byte>, b: seq<Byte>, k: nat)
    requires |a| == 4 * k && AlphaOpaque(a) && AlphaOpaque(b)
    ensures AlphaOpaque(a + b)
  {
    forall i | 0 <= i < |a + b| && i % 4 == 3
      ensures (a + b)[i] == Opaque
    {
      if i >= |a| {
        assert (i - 4 * k) % 4 == 3;
      }
    }
  }

  /** The bytes of pixels 0 .. n - 1 of row y, four per pixel. */
  function RowBytes(pixel: PixelFunction, y: nat, n: nat): (data: seq<Byte>)
    requires WellFormedPixels(pixel) && RowOk(pixel, y, n)
    ensures |data| == 4 * n
  {
    if n == 0 then [] else RowBytes(pixel, y, n - 1) + pixel(n - 1, y).value
  }

  lemma {:induction false} RowBytesOpaque(pixel: PixelFunction, y: nat, n: nat)
    requires WellFormedPixels(pixel) && RowOk(pixel, y, n)
    ensures AlphaOpaque(RowBytes(pixel, y, n))
  {
    if n > 0 {
      RowBytesOpaque(pixel, y, n - 1);
      AlphaAppend(RowBytes(pixel, y, n - 1), pixel(n - 1, y).value, n - 1);
    }
  }

  /** The bytes of rows 0 .. m - 1, top to bottom. */
  function ImageRows(pixel: PixelFunction, width: nat, m: nat): (data: seq<Byte>)
    requires WellFormedPixels(pixel) && RowsOk(pixel, width, m)
    ensures |data| == 4 * (m * width)
  {
    if m == 0 then []
    else
      assert (m - 1) * width + width == m * width;
      ImageRows(pixel, width, m - 1) + RowBytes(pixel, m - 1, width)
  }

  lemma {:induction false} ImageRowsOpaque(pixel: PixelFunction, width: nat, m: nat)
    requires WellFormedPixels(pixel) && RowsOk(pixel, width, m)
    ensures AlphaOpaque(ImageRows(pixel, width, m))
  {
    if m > 0 {
      ImageRowsOpaque(pixel, width, m - 1);
      RowBytesOpaque(pixel, m - 1, width);
      AlphaAppend(ImageRows(pixel, width, m - 1), RowBytes(pixel, m - 1, width), (m - 1) * width);
    }
  }

  lemma {:induction false} RowBytesIndex(pixel: PixelFunction, y: nat, n: nat, x: nat, c: nat)
    requires WellFormedPixels(pixel) && RowOk(pixel, y, n)
    requires x < n && c < 4
    ensures RowBytes(pixel, y, n)[4 * x + c] == pixel(x, y).value[c]
  {
    if x < n - 1 {
      RowBytesIndex(pixel, y, n - 1, x, c);
    }
  }

  lemma {:induction false} ImageRowsIndex(pixel: PixelFunction, width: nat, m: nat, x: nat, y: nat, c: nat)
    requires WellFormedPixels(pixel) && RowsOk(pixel, width, m)
    requires x < width && y < m && c < 4
    ensures 4 * (y * width + x) + c < 4 * (m * width)
    ensures ImageRows(pixel, width, m)[4 * (y * width + x) + c] == pixel(x, y).value[c]
  {
    assert (m - 1) * width + width == m * width;
    if y == m - 1 {
      RowBytesIndex(pixel, y, width, x, c);
    } else {
      MulMonotonic(y + 1, m - 1, width);
      assert (y + 1) * width == y * width + width;
      ImageRowsIndex(pixel, width, m - 1, x, y, c);
    }
  }

  /** The RGBA buffer of an image whose pixels all succeed; every fourth byte is an opaque alpha. */
  function ImageBytes(pixel: PixelFunction, width: nat, height: nat): (data: seq<Byte>)
    requires WellFormedPixels(pixel) && RowsOk(pixel, width, height)
    ensures |data| == width * height * 4
  {
    ImageRows(pixel, width, height)
  }

  /** Every fourth byte of the buffer, the alpha of a pixel, is 255. */
  lemma ImageBytesOpaque(pixel: PixelFunction, width: nat, height: nat)
    requires WellFormedPixels(pixel) && RowsOk(pixel, width, height)
    ensures AlphaOpaque(ImageBytes(pixel, width, height))
  {
    ImageRowsOpaque(pixel, width, height);
  }

  /** Byte c of pixel (x, y) sits at (y * width + x) * 4 + c, the index the pixel loop writes. */
  lemma ImageBytesIndex(pixel: PixelFunction, width: nat, height: nat, x: nat, y: nat, c: nat)
    requires WellFormedPixels(pixel) && RowsOk(pixel, width, height)
    requires x < width && y < height && c < 4
    ensures (y * width + x) * 4 + c < width * height * 4
    ensures ImageBytes(pixel, width, height)[(y * width + x) * 4 + c] == pixel(x, y).value[c]
  {
    ImageRowsIndex(pixel, width, height, x, y, c);
  }

  /**
   * The body of the pixel loop for pixel (x, y): the displaced and clamped
   * sample point, its colour, the grain, and the four bytes stored.
   */
  method ComputePixel(x: nat, y: nat, opts: Options, palette: seq<RGB>,
                      displacementMapX: array<real>, displacementMapY: array<real>, toDouble: ToDouble,
                      ghost pixels: PixelFunction)
    returns (pixel: Result<seq<Byte>, Error>)
    requires ValidGrid(opts.grid) && opts.width >= 2 && opts.height >= 2
    requires x < opts.width && y < opts.height
    requires DisplacementOn(opts) ==> displacementMapX.Length == NoiseDim(opts.width) * NoiseDim(opts.height)
    requires DisplacementOn(opts) ==> displacementMapY.Length == NoiseDim(opts.width) * NoiseDim(opts.height)
    requires Computes(pixels, opts, palette, displacementMapX[..], displacementMapY[..], toDouble)
    ensures pixel == pixels(x, y)
  {
    var sampleX, sampleY := DisplacedSample(x, y, opts, displacementMapX, displacementMapY);
    var color := GetPixelColor(sampleX, sampleY, opts.width, opts.height, opts.grid, palette);
    if color.Failure? {
      pixel := Failure(color.error);
    } else {
      var rgba := ShadeColor(color.value, x, y, opts, toDouble);
      pixel := Success(rgba);
    }
    assert pixel == PixelBytes(x, y, opts, palette, displacementMapX[..], displacementMapY[..], toDouble);
  }

  /** The sample point of pixel (x, y): the pixel itself, or displaced by the two maps. */
  method DisplacedSample(x: nat, y: nat, opts: Options, displacementMapX: array<real>, displacementMapY: array<real>)
    returns (sampleX: real, sampleY: real)
    requires opts.width >= 2 && opts.height >= 2 && x < opts.width && y < opts.height
    requires DisplacementOn(opts) ==> displacementMapX.Length == NoiseDim(opts.width) * NoiseDim(opts.height)
    requires DisplacementOn(opts) ==> displacementMapY.Length == NoiseDim(opts.width) * NoiseDim(opts.height)
    ensures SamplePoint(x, y, opts, displacementMapX[..], displacementMapY[..]) == Some((sampleX, sampleY))
  {
    var width, height := opts.width, opts.height;
    sampleX, sampleY := x as real, y as real;
    if DisplacementOn(opts) {
      var noiseWidth, noiseHeight := NoiseDim(width), NoiseDim(height);
      SampleNoiseMapDefined(displacementMapX[..], x, y, width, height);
      SampleNoiseMapDefined(displacementMapY[..], x, y, width, height);
      var noiseX := SampleNoiseMap(displacementMapX[..], x, y, noiseWidth, noiseHeight, NoiseScale).value;
      var noiseY := SampleNoiseMap(displacementMapY[..], x, y, noiseWidth, noiseHeight, NoiseScale).value;
      sampleX := Displaced(x, noiseX, opts.displacement.value.amplitude, width);
      sampleY := Displaced(y, noiseY, opts.displacement.value.amplitude, height);
    }
  }

  /** The channels of colour c with the grain of pixel (x, y) added and clamped, then truncated to bytes. */
  method ShadeColor(c: RGB, x: nat, y: nat, opts: Options, toDouble: ToDouble) returns (rgba: seq<Byte>)
    ensures rgba == ShadedBytes(c, PixelGrain(x, y, opts, toDouble))
  {
    var r, g, b := c.r as real, c.g as real, c.b as real;
    if GrainOn(opts) {
      var grainValue := GrainValue(FastNoise(x, y, toDouble), opts.grain.value.intensity);
      r := Clamp(0.0, 255.0, r + grainValue);
      g := Clamp(0.0, 255.0, g + grainValue);
      b := Clamp(0.0, 255.0, b + grainValue);
    }
    rgba := [ToUint8(r), ToUint8(g), ToUint8(b), Opaque];
  }

  /** The four stores `data[index] = r` .. `data[index + 3] = 255` of one pixel. */
  method StorePixel(data: array<Byte>, index: nat, rgba: seq<Byte>)
    requires |rgba| == 4 && index + 4 <= data.Length
    modifies data
    ensures data[..index + 4] == old(data[..index]) + rgba
  {
    data[index] := rgba[0];
    data[index + 1] := rgba[1];
    data[index + 2] := rgba[2];
    data[index + 3] := rgba[3];
    assert data[..index + 4] == old(data[..index]) + rgba;
  }

  /**
   * One pass of the inner pixel loop (src/meshGradient.ts:83-125): row y
   * goes to bytes 4 * (y * width) .. 4 * (y * width + width) - 1, pixel x of
   * it to the four bytes from (y * width + x) * 4. Earlier rows are kept.
   * A pixel whose colour lookup throws ends the row, and the buffer is then
   * dropped with the exception.
   */
  method FillRow(data: array<Byte>, y: nat, opts: Options, palette: seq<RGB>,
                 displacementMapX: array<real>, displacementMapY: array<real>, toDouble: ToDouble,
                 ghost pixels: PixelFunction)
    returns (error: Option<Error>)
    requires ValidGrid(opts.grid) && opts.width >= 2 && opts.height >= 2
    requires y < opts.height
    requires 4 * (y * opts.width) + 4 * opts.width <= data.Length
    requires DisplacementOn(opts) ==> displacementMapX.Length == NoiseDim(opts.width) * NoiseDim(opts.height)
    requires DisplacementOn(opts) ==> displacementMapY.Length == NoiseDim(opts.width) * NoiseDim(opts.height)
    requires WellFormedPixels(pixels) && Computes(pixels, opts, palette, displacementMapX[..], displacementMapY[..], toDouble)
    modifies data
    ensures error.None? <==> RowOk(pixels, y, opts.width)
    ensures error.Some? ==> error.value == TypeError
    ensures error.None? ==> data[..4 * (y * opts.width) + 4 * opts.width] == old(data[..4 * (y * opts.width)]) + RowBytes(pixels, y, opts.width)
  {
    var width, height := opts.width, opts.height;
    ghost var mapX, mapY := displacementMapX[..], displacementMapY[..];
    ghost var start := 4 * (y * width);
    ghost var earlier := data[..start];
    var x := 0;
    while x < width
      invariant 0 <= x <= width && RowOk(pixels, y, x)
      invariant displacementMapX[..] == mapX && displacementMapY[..] == mapY
      invariant data[..start + 4 * x] == earlier + RowBytes(pixels, y, x)
    {
      error := FillPixel(data, x, y, opts, palette, displacementMapX, displacementMapY, toDouble, pixels, start, earlier);
      if error.Some? {
        return;
      }
      x := x + 1;
    }
    return None;
  }

  /**
   * One pass of the inner pixel loop: pixel (x, y) computed and, unless its
   * colour lookup throws, stored at (y * width + x) * 4.
   */
  method FillPixel(data: array<Byte>, x: nat, y: nat, opts: Options, palette: seq<RGB>,
                   displacementMapX: array<real>, displacementMapY: array<real>, toDouble: ToDouble,
                   ghost pixels: PixelFunction, ghost start: nat, ghost earlier: seq<Byte>)
    returns (error: Option<Error>)
    requires ValidGrid(opts.grid) && opts.width >= 2 && opts.height >= 2
    requires x < opts.width && y < opts.height
    requires start == 4 * (y * opts.width) && start + 4 * opts.width <= data.Length
    requires DisplacementOn(opts) ==> displacementMapX.Length == NoiseDim(opts.width) * NoiseDim(opts.height)
    requires DisplacementOn(opts) ==> displacementMapY.Length == NoiseDim(opts.width) * NoiseDim(opts.height)
    requires WellFormedPixels(pixels) && Computes(pixels, opts, palette, displacementMapX[..], displacementMapY[..], toDouble)
    requires RowOk(pixels, y, x) && data[..start + 4 * x] == earlier + RowBytes(pixels, y, x)
    modifies data
    ensures error.None? <==> pixels(x, y).Success?
    ensures error.Some? ==> error.value == TypeError && data[..] == old(data[..])
    ensures error.None? ==> data[..start + 4 * (x + 1)] == earlier + RowBytes(pixels, y, x + 1)
  {
    var pixel := ComputePixel(x, y, opts, palette, displacementMapX, displacementMapY, toDouble, pixels);
    if pixel.Failure? {
      return Some(pixel.error);
    }
    StoreRowPixel(data, x, y, opts.width, pixel.value, pixels, start, earlier);
    return None;
  }

  /** The stores of pixel (x, y) at (y * width + x) * 4, which extend the stored part of row y by one pixel. */
  method StoreRowPixel(data: array<Byte>, x: nat, y: nat, width: nat, rgba: seq<Byte>,
                       ghost pixels: PixelFunction, ghost start: nat, ghost earlier: seq<Byte>)
    requires x < width && start == 4 * (y * width) && start + 4 * width <= data.Length
    requires WellFormedPixels(pixels) && pixels(x, y) == Success(rgba)
    requires RowOk(pixels, y, x) && data[..start + 4 * x] == earlier + RowBytes(pixels, y, x)
    modifies data
    ensures RowOk(pixels, y, x + 1)
    ensures data[..start + 4 * (x + 1)] == earlier + RowBytes(pixels, y, x + 1)
  {
    var index := (y * width + x) * 4;
    assert index == start + 4 * x;
    StorePixel(data, index, rgba);
  }

  /** Row y < height ends inside the width * height * 4 byte buffer. */
  lemma RowSpan(y: nat, width: nat, height: nat)
    requires y < height
    ensures 4 * (y * width) + 4 * width <= width * height * 4
  {
    MulMonotonic(y + 1, height, width);
  }

  /**
   * The pixel loop (src/meshGradient.ts:82-126) over a zeroed buffer of
   * width * height * 4 bytes, row by row. It stops at the first pixel whose
   * colour lookup throws.
   */
  method FillPixels(data: array<Byte>, opts: Options, palette: seq<RGB>,
                    displacementMapX: array<real>, displacementMapY: array<real>, toDouble: ToDouble,
                    ghost pixels: PixelFunction)
    returns (error: Option<Error>)
    requires ValidGrid(opts.grid) && opts.width >= 2 && opts.height >= 2
    requires data.Length == opts.width * opts.height * 4
    requires DisplacementOn(opts) ==> displacementMapX.Length == NoiseDim(opts.width) * NoiseDim(opts.height)
    requires DisplacementOn(opts) ==> displacementMapY.Length == NoiseDim(opts.width) * NoiseDim(opts.height)
    requires WellFormedPixels(pixels) && Computes(pixels, opts, palette, displacementMapX[..], displacementMapY[..], toDouble)
    modifies data
    ensures error.None? <==> RowsOk(pixels, opts.width, opts.height)
    ensures error.Some? ==> error.value == TypeError
    ensures error.None? ==> data[..] == ImageBytes(pixels, opts.width, opts.height)
  {
    var width, height := opts.width, opts.height;
    ghost var mapX, mapY := displacementMapX[..], displacementMapY[..];
    var y := 0;
    while y < height
      invariant 0 <= y <= height && RowsOk(pixels, width, y)
      invariant displacementMapX[..] == mapX && displacementMapY[..] == mapY
      invariant 4 * (y * width) <= data.Length
      invariant data[..4 * (y * width)] == ImageRows(pixels, width, y)
    {
      RowSpan(y, width, height);
      error := FillRow(data, y, opts, palette, displacementMapX, displacementMapY, toDouble, pixels);
      if error.Some? {
        return;
      }
      assert ImageRows(pixels, width, y + 1) == ImageRows(pixels, width, y) + RowBytes(pixels, y, width);
      assert y * width + width == (y + 1) * width;
      y := y + 1;
    }
    assert height * width == width * height;
    assert data[..] == data[..4 * (y * width)];
    return None;
  }


  /** `colors.map(hexToRgb)`. */
  function Palette(colors: seq<JsString>): (palette: seq<RGB>)
    ensures |palette| == |colors|
    ensures forall i :: 0 <= i < |palette| ==> InGamut(palette[i])
  {
    seq(|colors|, i requires 0 <= i < |colors| => HexToRgb(colors[i]))
  }

  /** The two displacement maps, baked only when displacement is enabled. */
  function BakedMaps(opts: Options, noise2D: Noise2D): (seq<real>, seq<real>) {
    if DisplacementOn(opts) then
      var w, h, f := NoiseDim(opts.width), NoiseDim(opts.height), opts.displacement.value.frequency;
      (DisplacementMap(w, h, f, 0, noise2D), DisplacementMap(w, h, f, NoiseOffsetY, noise2D))
    else
      ([], [])
  }

  /**
   * The buffer generation fills, or what it throws. An image of width or
   * height 1 throws at its first pixel, whose grid coordinate is 0 / 0.
   */
  function Render(opts: Options, noise2D: Noise2D, toDouble: ToDouble): (r: Result<seq<Byte>, Error>)
    ensures !ValidGrid(opts.grid) ==> r == Failure(InvalidGrid)
    ensures r.Success? ==> |r.value| == opts.width * opts.height * 4
  {
    if !ValidGrid(opts.grid) then Failure(InvalidGrid)
    else if opts.width == 0 || opts.height == 0 then Success([])
    else if opts.width == 1 || opts.height == 1 then Failure(TypeError)
    else
      var palette := Palette(opts.colors);
      var (mapX, mapY) := BakedMaps(opts, noise2D);
      var pixels := PixelsOf(opts, palette, mapX, mapY, toDouble);
      if RowsOk(pixels, opts.width, opts.height) then
        Success(ImageBytes(pixels, opts.width, opts.height))
      else
        Failure(TypeError)
  }

  /** Every fourth byte of a rendered buffer, the alpha of a pixel, is 255. */
  lemma RenderOpaque(opts: Options, noise2D: Noise2D, toDouble: ToDouble)
    ensures Render(opts, noise2D, toDouble).Success? ==> AlphaOpaque(Render(opts, noise2D, toDouble).value)
  {
    if ValidGrid(opts.grid) && opts.width >= 2 && opts.height >= 2 {
      var palette := Palette(opts.colors);
      var (mapX, mapY) := BakedMaps(opts, noise2D);
      var pixels := PixelsOf(opts, palette, mapX, mapY, toDouble);
      if RowsOk(pixels, opts.width, opts.height) {
        ImageBytesOpaque(pixels, opts.width, opts.height);
      }
    }
  }

  /** PixelsOf is the pixel computation, at every pixel. */
  lemma PixelsOfComputes(opts: Options, palette: seq<RGB>, mapX: seq<real>, mapY: seq<real>, toDouble: ToDouble)
    requires ValidGrid(opts.grid) && opts.width >= 2 && opts.height >= 2
    ensures Computes(PixelsOf(opts, palette, mapX, mapY, toDouble), opts, palette, mapX, mapY, toDouble)
  {
  }

  /**
   * generateMeshGradientJPEG up to the encoder (src/meshGradient.ts:33-126):
   * the grid check, the palette, the displacement maps when displacement is
   * on, a zeroed width * height * 4 buffer and the pixel loop.
   */
  method GenerateMeshGradient(opts: Options, noise2D: Noise2D, toDouble: ToDouble) returns (result: Result<array<Byte>, Error>)
    ensures result.Failure? ==> Render(opts, noise2D, toDouble) == Failure(result.error)
    ensures result.Success? ==> fresh(result.value) && Render(opts, noise2D, toDouble) == Success(result.value[..])
  {
    if !ValidGrid(opts.grid) {
      return Failure(InvalidGrid);
    }
    var palette := Palette(opts.colors);
    var width, height := opts.width, opts.height;
    var noiseWidth, noiseHeight := NoiseDim(width), NoiseDim(height);
    var displacementMapX: array<real>, displacementMapY: array<real>;
    if DisplacementOn(opts) {
      displacementMapX, displacementMapY := BakeDisplacementMaps(noiseWidth, noiseHeight, opts.displacement.value.frequency, noise2D);
    } else {
      displacementMapX, displacementMapY := new real[0], new real[0];
      assert displacementMapX[..] == [] && displacementMapY[..] == [];
    }
    assert (displacementMapX[..], displacementMapY[..]) == BakedMaps(opts, noise2D);
    var data := new Byte[width * height * 4](_ => 0);
    if width == 0 || height == 0 {
      assert width * height == 0;
      assert data[..] == [];
      return Success(data);
    }
    if width == 1 || height == 1 {
      // the first pixel's grid coordinate is 0 / 0, and indexing the grid with NaN throws
      return Failure(TypeError);
    }
    ghost var pixels := PixelsOf(opts, palette, displacementMapX[..], displacementMapY[..], toDouble);
    PixelsOfComputes(opts, palette, displacementMapX[..], displacementMapY[..], toDouble);
    var error := FillPixels(data, opts, palette, displacementMapX, displacementMapY, toDouble, pixels);
    if error.Some? {
      return Failure(error.value);
    }
    return Success(data);
  }

  /** The four bytes of an opaque pixel of colour c. */
  function Rgba(c: RGB): (p: seq<Byte>)
    requires InGamut(c)
    ensures |p| == 4
  {
    [c.r, c.g, c.b, Opaque]
  }

  /** Without grain, every pixel of a grid of one repeated point has that point's blended colour. */
  lemma UniformPixel(x: nat, y: nat, opts: Options, palette: seq<RGB>, mapX: seq<real>, mapY: seq<real>, toDouble: ToDouble, point: GridPoint)
    requires ValidGrid(opts.grid) && opts.width >= 2 && opts.height >= 2
    requires x < opts.width && y < opts.height
    requires forall row, col :: 0 <= row < Rows && 0 <= col < Columns ==> opts.grid[row][col] == point
    requires 0 <= point.colorIndex < |palette| && InGamut(palette[point.colorIndex]) && 0.0 <= point.influence <= 1.0
    requires !GrainOn(opts)
    requires DisplacementOn(opts) ==> |mapX| == |mapY| == NoiseDim(opts.width) * NoiseDim(opts.height)
    ensures PixelBytes(x, y, opts, palette, mapX, mapY, toDouble)
      == Success(Rgba(BlendColorWithInfluence(palette[point.colorIndex], point.influence)))
  {
    if DisplacementOn(opts) {
      SampleNoiseMapDefined(mapX, x, y, opts.width, opts.height);
      SampleNoiseMapDefined(mapY, x, y, opts.width, opts.height);
    }
    var sample := SamplePoint(x, y, opts, mapX, mapY).value;
    UniformGridColor(sample.0, sample.1, opts.width, opts.height, opts.grid, palette, point);
  }

  /** The four bytes p repeated for n pixels. */
  function Repeat(p: seq<Byte>, n: nat): seq<Byte>
    requires |p| == 4
  {
    seq(n * 4, i => p[i % 4])
  }

  /** An image whose every pixel has the bytes p is p repeated. */
  lemma ConstantImage(pixels: PixelFunction, width: nat, height: nat, p: seq<Byte>)
    requires WellFormedPixels(pixels) && |p| == 4
    requires forall x: nat, y: nat :: x < width && y < height ==> pixels(x, y) == Success(p)
    ensures RowsOk(pixels, width, height)
    ensures ImageBytes(pixels, width, height) == Repeat(p, width * height)
  {
    var image := ImageBytes(pixels, width, height);
    var expected := Repeat(p, width * height);
    forall i | 0 <= i < |image|
      ensures image[i] == expected[i]
    {
      var q := i / 4;
      IndexSplit(q, width, height);
      ImageBytesIndex(pixels, width, height, q % width, q / width, i % 4);
    }
    assert image == expected;
  }

  /** Every in-image pixel of a uniform grid without grain has the same four bytes. */
  lemma UniformPixels(opts: Options, palette: seq<RGB>, mapX: seq<real>, mapY: seq<real>, toDouble: ToDouble, point: GridPoint)
    requires ValidGrid(opts.grid) && opts.width >= 2 && opts.height >= 2
    requires forall row, col :: 0 <= row < Rows && 0 <= col < Columns ==> opts.grid[row][col] == point
    requires 0 <= point.colorIndex < |palette| && InGamut(palette[point.colorIndex]) && 0.0 <= point.influence <= 1.0
    requires !GrainOn(opts)
    requires DisplacementOn(opts) ==> |mapX| == |mapY| == NoiseDim(opts.width) * NoiseDim(opts.height)
    ensures var c := BlendColorWithInfluence(palette[point.colorIndex], point.influence);
      forall x: nat, y: nat :: x < opts.width && y < opts.height ==>
        PixelsOf(opts, palette, mapX, mapY, toDouble)(x, y) == Success(Rgba(c))
  {
    forall x: nat, y: nat | x < opts.width && y < opts.height
      ensures PixelBytes(x, y, opts, palette, mapX, mapY, toDouble)
        == Success(Rgba(BlendColorWithInfluence(palette[point.colorIndex], point.influence)))
    {
      UniformPixel(x, y, opts, palette, mapX, mapY, toDouble, point);
    }
  }

  /** The image of one colour: the point's palette colour blended from white by its influence. */
  function UniformImage(opts: Options, point: GridPoint): seq<Byte>
    requires 0 <= point.colorIndex < |opts.colors| && 0.0 <= point.influence <= 1.0
  {
    MulNonNegative(opts.width, opts.height);
    Repeat(Rgba(BlendColorWithInfluence(HexToRgb(opts.colors[point.colorIndex]), point.influence)), opts.width * opts.height)
  }

  /**
   * A grid of one repeated point, without grain, renders one colour: the
   * point's palette colour blended from white by its influence, at every pixel.
   */
  lemma UniformGridImage(opts: Options, noise2D: Noise2D, toDouble: ToDouble, point: GridPoint)
    requires ValidGrid(opts.grid) && opts.width >= 2 && opts.height >= 2
    requires forall row, col :: 0 <= row < Rows && 0 <= col < Columns ==> opts.grid[row][col] == point
    requires 0 <= point.colorIndex < |opts.colors| && 0.0 <= point.influence <= 1.0
    requires !GrainOn(opts)
    ensures Render(opts, noise2D, toDouble) == Success(UniformImage(opts, point))
  {
    var palette := Palette(opts.colors);
    var (mapX, mapY) := BakedMaps(opts, noise2D);
    var pixels := PixelsOf(opts, palette, mapX, mapY, toDouble);
    var c := BlendColorWithInfluence(palette[point.colorIndex], point.influence);
    UniformPixels(opts, palette, mapX, mapY, toDouble, point);
    ConstantImage(pixels, opts.width, opts.height, Rgba(c));
  }
}

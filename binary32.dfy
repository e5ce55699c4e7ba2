/**
 * IEEE 754 binary32 ("f32") values, decoded from their 32-bit patterns
 * (IEEE 754-2019, section 3.4: sign bit, 8-bit biased exponent, 23-bit
 * trailing significand). Only finite patterns have a value here; the
 * infinities and NaNs (exponent field 255) are outside the model.
 */
module Binary32 {
  import opened JsNumber

  /** The biased exponent field of a pattern. */
  function ExponentField(bits: int): (e: int)
    requires IsUint32(bits)
    ensures 0 <= e < 256
  {
    (bits / 0x80_0000) % 256
  }

  predicate IsFinite(bits: int)
    requires IsUint32(bits)
  {
    ExponentField(bits) != 255
  }

  /** 2^e as a real, for any integer e. */
  function Scale(e: int): (r: real)
    ensures r > 0.0
  {
    if e >= 0 then Pow2(e) as real else 1.0 / Pow2(-e) as real
  }

  /**
   * The real number a finite pattern denotes: a normal number
   * (1 + f/2^23) * 2^(e-127), or a subnormal one f * 2^-149.
   */
  function Value(bits: int): (v: real)
    requires IsUint32(bits) && IsFinite(bits)
    ensures bits == 0 ==> v == 0.0
  {
    var negative := bits >= TwoTo31;
    var e := ExponentField(bits);
    var f := bits % 0x80_0000;
    var magnitude :=
      if e == 0 then f as real * Scale(-149)
      else (0x80_0000 + f) as real * Scale(e - 150);
    if negative then -magnitude else magnitude
  }

  lemma Pow2Known()
    ensures Pow2(23) == 0x80_0000 && Pow2(24) == 0x100_0000
  {
    assert Pow2(4) == 16;
    assert Pow2(8) == 256;
    assert Pow2(12) == 4096;
    assert Pow2(16) == 65536;
    assert Pow2(20) == 0x10_0000;
  }

  /** The pattern 0x3F800000 is 1.0, the pattern 0 is 0.0 and 0x3F000000 is 0.5. */
  lemma KnownValues()
    ensures IsFinite(0x3F80_0000) && Value(0x3F80_0000) == 1.0
    ensures IsFinite(0x3F00_0000) && Value(0x3F00_0000) == 0.5
  {
    Pow2Known();
    assert ExponentField(0x3F80_0000) == 127;
    assert ExponentField(0x3F00_0000) == 126;
    assert Scale(-23) == 1.0 / 0x80_0000 as real;
    assert Scale(-24) == 1.0 / 0x100_0000 as real;
  }
}

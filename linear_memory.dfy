/**
 * WebAssembly linear memory as the host and the AssemblyScript module see
 * it: a byte array whose length is a whole number of 64 KiB pages, grown
 * with `memory.grow`, read with little-endian `load<i32>`/`load<f32>` and
 * written with `store<u8>` and DataView setters (WebAssembly Core
 * Specification, section 4.2.8; DataView, ECMA-262 section 25.3).
 */
module LinearMemory {
  import opened JsNumber

  const PageSize: nat := 0x1_0000

  /** The unsigned 32-bit value of the four little-endian bytes at `addr`. */
  function LoadU32(bytes: seq<Byte>, addr: int): (u: int)
    requires 0 <= addr && addr + 4 <= |bytes|
    ensures IsUint32(u)
  {
    bytes[addr] as int + 0x100 * bytes[addr + 1] as int + 0x1_0000 * bytes[addr + 2] as int
      + 0x100_0000 * bytes[addr + 3] as int
  }

  /** `load<i32>`: the same four bytes as a two's-complement value. */
  function LoadI32(bytes: seq<Byte>, addr: int): (s: int)
    requires 0 <= addr && addr + 4 <= |bytes|
    ensures IsInt32(s) && ToUint32(s) == LoadU32(bytes, addr)
  {
    var u := LoadU32(bytes, addr);
    if u >= TwoTo31 then u - TwoTo32 else u
  }

  /** The four little-endian bytes of an unsigned 32-bit value. */
  function Le32(u: int): (b: seq<Byte>)
    requires IsUint32(u)
    ensures |b| == 4
  {
    [u % 0x100, (u / 0x100) % 0x100, (u / 0x1_0000) % 0x100, u / 0x100_0000]
  }

  /** Loading what Le32 wrote gives the value back, wherever it sits. */
  lemma LoadLe32(bytes: seq<Byte>, addr: int, u: int)
    requires IsUint32(u) && 0 <= addr && addr + 4 <= |bytes|
    requires bytes[addr..addr + 4] == Le32(u)
    ensures LoadU32(bytes, addr) == u
  {
    assert bytes[addr] == Le32(u)[0];
    assert bytes[addr + 1] == Le32(u)[1];
    assert bytes[addr + 2] == Le32(u)[2];
    assert bytes[addr + 3] == Le32(u)[3];
    Le32Recombine(u);
  }

  /** The four digits of u in base 256 recombine to u. */
  lemma Le32Recombine(u: int)
    requires IsUint32(u)
    ensures u % 0x100 + 0x100 * ((u / 0x100) % 0x100) + 0x1_0000 * ((u / 0x1_0000) % 0x100)
      + 0x100_0000 * (u / 0x100_0000) == u
  {
    var q1, q2, q3 := u / 0x100, u / 0x1_0000, u / 0x100_0000;
    DivModUnique(u, 0x100, q1, u % 0x100);
    DivModUnique(q1, 0x100, q1 / 0x100, q1 % 0x100);
    DivModUnique(u, 0x1_0000, q1 / 0x100, u % 0x100 + 0x100 * (q1 % 0x100));
    DivModUnique(q2, 0x100, q2 / 0x100, q2 % 0x100);
    DivModUnique(u, 0x100_0000, q2 / 0x100, u % 0x1_0000 + 0x1_0000 * (q2 % 0x100));
  }

  /** Writing back the bytes that were loaded changes nothing. */
  lemma Le32OfLoad(bytes: seq<Byte>, addr: int)
    requires 0 <= addr && addr + 4 <= |bytes|
    ensures Le32(LoadU32(bytes, addr)) == bytes[addr..addr + 4]
  {
    var b0, b1, b2, b3 := bytes[addr] as int, bytes[addr + 1] as int, bytes[addr + 2] as int, bytes[addr + 3] as int;
    var u := LoadU32(bytes, addr);
    DivModUnique(u, 0x100, b1 + 0x100 * b2 + 0x1_0000 * b3, b0);
    DivModUnique(u / 0x100, 0x100, b2 + 0x100 * b3, b1);
    DivModUnique(u, 0x1_0000, b2 + 0x100 * b3, b0 + 0x100 * b1);
    DivModUnique(u / 0x1_0000, 0x100, b3, b2);
    DivModUnique(u, 0x100_0000, b3, b0 + 0x100 * b1 + 0x1_0000 * b2);
  }

  class Memory {
    /** The contents of `memory.buffer`. */
    var bytes: seq<Byte>

    ghost predicate Valid()
      reads this
    {
      |bytes| % PageSize == 0
    }

    /** `memory.buffer.byteLength`. */
    function ByteLength(): nat
      reads this
    {
      |bytes|
    }

    /** `memory.grow(delta)`: append `delta` zeroed pages, returning the old page count. */
    method Grow(delta: nat) returns (previousPages: nat)
      requires Valid()
      modifies this
      ensures Valid()
      ensures previousPages * PageSize == |old(bytes)|
      ensures bytes == old(bytes) + seq(delta * PageSize, _ => 0)
    {
      previousPages := |bytes| / PageSize;
      bytes := bytes + seq(delta * PageSize, _ => 0);
    }

    /** `store<u8>(addr, v)`. */
    method StoreU8(addr: nat, v: Byte)
      requires addr < |bytes|
      modifies this
      ensures bytes == old(bytes)[addr := v]
    {
      bytes := bytes[addr := v];
    }

    /** A little-endian 32-bit store, as DataView.setInt32/setFloat32 with littleEndian true perform it. */
    method StoreLe32(addr: nat, u: int)
      requires IsUint32(u) && addr + 4 <= |bytes|
      modifies this
      ensures bytes == old(bytes)[..addr] + Le32(u) + old(bytes)[addr + 4..]
    {
      bytes := bytes[..addr] + Le32(u) + bytes[addr + 4..];
    }
  }
}

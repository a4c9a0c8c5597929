/** The reflected CRC-32 that guards every record on the board (boot_state.c). */
module Crc {
  import opened Bytes

  const POLYNOMIAL: bv32 := 0xEDB8_8320

  /** Divides by one more bit of the polynomial. */
  function BitStep(crc: bv32): bv32
  {
    if crc & 1 == 1 then (crc >> 1) ^ POLYNOMIAL else crc >> 1
  }

  function BitSteps(crc: bv32, n: nat): bv32
  {
    if n == 0 then crc else BitStep(BitSteps(crc, n - 1))
  }

  function ByteStep(crc: bv32, b: byte): bv32
  {
    BitSteps(crc ^ (b as bv32), 8)
  }

  /** The register after the bytes of `s`, starting from `crc`. */
  function Fold(crc: bv32, s: seq<byte>): bv32
  {
    if s == [] then crc else ByteStep(Fold(crc, s[..|s| - 1]), s[|s| - 1])
  }

  /** The final inversion. */
  function Finish(crc: bv32): u32
  {
    0xFFFF_FFFF - crc as int
  }

  function Crc32(s: seq<byte>): u32
  {
    Finish(Fold(0xFFFF_FFFF, s))
  }

  lemma NothingFolded(crc: bv32)
    ensures Fold(crc, []) == crc
  {
  }

  /** A CRC may be taken chunk by chunk. */
  lemma {:induction false} FoldConcat(crc: bv32, a: seq<byte>, b: seq<byte>)
    ensures Fold(crc, a + b) == Fold(Fold(crc, a), b)
  {
    if b == [] {
      assert a + b == a;
    } else {
      var last := |b| - 1;
      assert (a + b)[..|a + b| - 1] == a + b[..last];
      FoldConcat(crc, a, b[..last]);
    }
  }

  /** Runs one byte through the register with the branch-free bit loop of the source. */
  method AddByte(crc: bv32, b: byte) returns (r: bv32)
    ensures r == ByteStep(crc, b)
  {
    r := crc ^ (b as bv32);
    for j := 0 to 8
      invariant r == BitSteps(crc ^ (b as bv32), j)
    {
      r := (r >> 1) ^ (POLYNOMIAL & (0 - (r & 1)));
    }
  }

  /** Runs a chunk of bytes through the register. */
  method AddBytes(crc: bv32, data: seq<byte>) returns (r: bv32)
    ensures r == Fold(crc, data)
  {
    r := crc;
    for i := 0 to |data|
      invariant r == Fold(crc, data[..i])
    {
      assert data[..i + 1][..i] == data[..i];
      r := AddByte(r, data[i]);
    }
    assert data[..|data|] == data;
  }

  /** `g100_crc32`. */
  method Compute(data: seq<byte>) returns (r: u32)
    ensures r == Crc32(data)
  {
    var crc := AddBytes(0xFFFF_FFFF, data);
    r := Finish(crc);
  }
}

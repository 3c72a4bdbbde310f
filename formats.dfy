/**
  * The DDS format codes the converter works with: the five S3TC codes, the raw
  * BGRA code and the seven swizzled DXT5 codes of NVIDIA's DDS utilities.
  * Every code is a FourCC, four ASCII characters packed little-endian into a DWORD.
  */
module Formats {
  import opened Common

  const FORMAT_DXT1: DWORD := 0x31545844  // "DXT1"
  const FORMAT_DXT2: DWORD := 0x32545844  // "DXT2"
  const FORMAT_DXT3: DWORD := 0x33545844  // "DXT3"
  const FORMAT_DXT4: DWORD := 0x34545844  // "DXT4"
  const FORMAT_DXT5: DWORD := 0x35545844  // "DXT5"
  /** Uncompressed 32-bit BGRA (never written as a FourCC in the header). */
  const FORMAT_BGRA: DWORD := 0x41524742  // "BGRA"

  const FOURCC_DXT5_xGBR: DWORD := 0x52424778  // "xGBR"
  const FOURCC_DXT5_RxBG: DWORD := 0x47427852  // "RxBG"
  const FOURCC_DXT5_RBxG: DWORD := 0x47784252  // "RBxG"
  const FOURCC_DXT5_xRBG: DWORD := 0x47425278  // "xRBG"
  const FOURCC_DXT5_RGxB: DWORD := 0x42784752  // "RGxB"
  const FOURCC_DXT5_xGxR: DWORD := 0x52784778  // "xGxR"
  const FOURCC_ATI2N_DXT5: DWORD := 0x35443241  // "A2D5"

  /** The six codes the converter itself names. */
  predicate IsKnownFormat(f: DWORD) {
    f == FORMAT_DXT1 || f == FORMAT_DXT2 || f == FORMAT_DXT3 ||
    f == FORMAT_DXT4 || f == FORMAT_DXT5 || f == FORMAT_BGRA
  }

  /** The code of a character, cut to 8 bits. */
  function CharCode(c: char): nat {
    (c as int) % 256
  }

  /** The value of four characters packed little-endian into a DWORD: the first in the low byte. */
  function FourCC(s: string): nat
    requires |s| == 4
  {
    CharCode(s[0]) + 0x100 * CharCode(s[1]) + 0x1_0000 * CharCode(s[2]) + 0x100_0000 * CharCode(s[3])
  }

  /**
    * The name printed in warnings: the four characters of the code itself for
    * the six named codes, and "UNKNOWN" for every other code.
    */
  function FormatName(f: DWORD): (name: string)
    ensures |name| == 4 <==> IsKnownFormat(f)
    ensures !IsKnownFormat(f) ==> name == "UNKNOWN"
    ensures IsKnownFormat(f) ==> name[0] == (if f == FORMAT_BGRA then 'B' else 'D')
  {
    if f == FORMAT_DXT1 then "DXT1"
    else if f == FORMAT_DXT2 then "DXT2"
    else if f == FORMAT_DXT3 then "DXT3"
    else if f == FORMAT_DXT4 then "DXT4"
    else if f == FORMAT_DXT5 then "DXT5"
    else if f == FORMAT_BGRA then "BGRA"
    else "UNKNOWN"
  }

  /** The name of a named code spells the code: packing its four characters gives the code back. */
  lemma FormatNameSpellsCode(f: DWORD)
    ensures IsKnownFormat(f) ==> FourCC(FormatName(f)) == f as int
  {
    assert FourCC("DXT1") == FORMAT_DXT1 as int;
    assert FourCC("DXT2") == FORMAT_DXT2 as int;
    assert FourCC("DXT3") == FORMAT_DXT3 as int;
    assert FourCC("DXT4") == FORMAT_DXT4 as int;
    assert FourCC("DXT5") == FORMAT_DXT5 as int;
    assert FourCC("BGRA") == FORMAT_BGRA as int;
  }

  /**
    * The compression ratio against 32-bit pixels is 1/d for the returned d:
    * 1 for BGRA, 1/8 for DXT1 and 1/4 for every other code. The reciprocals are
    * exact in floating point, so the source's double is this rational.
    */
  function RatioDenominator(f: DWORD): (d: nat)
    ensures d == 1 <==> f == FORMAT_BGRA
    ensures d == 8 <==> f == FORMAT_DXT1
    ensures d == 1 || d == 4 || d == 8
  {
    if f == FORMAT_BGRA then 1
    else if f == FORMAT_DXT1 then 8
    else 4
  }

  /**
    * The swizzled DXT5 variants, which the header stores under the DXT5 FourCC.
    * None of them is one of the six named codes, nor 0.
    */
  predicate IsDXT5SwizzledFormat(f: DWORD): (swizzled: bool)
    ensures swizzled ==> !IsKnownFormat(f) && f != 0
  {
    f == FOURCC_DXT5_xGBR || f == FOURCC_DXT5_RxBG || f == FOURCC_DXT5_RBxG ||
    f == FOURCC_DXT5_xRBG || f == FOURCC_DXT5_RGxB || f == FOURCC_DXT5_xGxR ||
    f == FOURCC_ATI2N_DXT5
  }
}

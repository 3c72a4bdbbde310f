/**
  * The exact byte size of a DDS file, predicted before any compressor runs so
  * that the destination buffer is allocated once. A layer is cut into blocks
  * (1x1 pixel of 4 bytes for BGRA, 4x4 pixels of 8 or 16 bytes for S3TC) and
  * the file is an optional header, an optional base layer and an optional mip chain.
  */
module SizeModel {
  import opened Common
  import opened Formats
  import opened Images

  /** sizeof(DDSD2), the DirectDraw surface description that follows the magic. */
  const HDR: nat := 124
  /** sizeof(DWORD), the "DDS " magic in front of the surface description. */
  const MAGIC_SIZE: nat := 4

  /** Integer ceiling of a / b: the least number of b-wide blocks that cover a. */
  function CeilDiv(a: nat, b: nat): (r: nat)
    requires b > 0
    ensures r * b >= a
    ensures r == 0 || (r - 1) * b < a
  {
    (a + b - 1) / b
  }

  /**
    * Side of a block in pixels. A block's bytes times the compression ratio's
    * denominator are its pixels at 4 bytes each, which makes a BGRA block 1x1
    * and every compressed block 4x4.
    */
  function BlockDim(f: DWORD): (b: nat)
    ensures BlockBytes(f) * RatioDenominator(f) == 4 * b * b
  {
    if f == FORMAT_BGRA then 1 else 4
  }

  /** Bytes per block: 4 for BGRA, otherwise 64 times the compression ratio. */
  function BlockBytes(f: DWORD): (n: nat)
    ensures n == 4 <==> f == FORMAT_BGRA
    ensures n == 8 <==> f == FORMAT_DXT1
    ensures n == 16 <==> !(f == FORMAT_BGRA || f == FORMAT_DXT1)
  {
    if f == FORMAT_BGRA then 4 else 64 / RatioDenominator(f)
  }

  /**
    * The size of one w x h layer: blocks across, times blocks down, times bytes
    * per block. An empty layer takes nothing.
    */
  function LayerSize(w: nat, h: nat, f: DWORD): (n: nat)
    ensures w == 0 || h == 0 ==> n == 0
  {
    CeilDiv(w, BlockDim(f)) * CeilDiv(h, BlockDim(f)) * BlockBytes(f)
  }

  /**
    * The size of every layer of the mip chain, added up in chain order: at
    * least the size of each layer, and nothing for an empty chain.
    */
  function MipChainSize(mips: seq<MipMap>, f: DWORD): (n: nat)
    ensures mips == [] ==> n == 0
    ensures forall i :: 0 <= i < |mips| ==> n >= LayerSize(mips[i].width, mips[i].height, f)
  {
    if mips == [] then 0
    else LayerSize(mips[0].width, mips[0].height, f) + MipChainSize(mips[1..], f)
  }

  /**
    * CompressedSize: the header, the base layer and the mip chain, each on
    * request. Each requested part is contained in the total, and a request for
    * nothing is 0 bytes.
    */
  function CompressedSize(img: LoadedImage, f: DWORD, ddsHeader: bool, baseTex: bool, mipMaps: bool): (size: nat)
    ensures ddsHeader ==> size >= MAGIC_SIZE + HDR
    ensures baseTex ==> size >= LayerSize(img.width, img.height, f)
    ensures mipMaps ==> size >= MipChainSize(img.mipMaps, f)
    ensures !ddsHeader && !baseTex && !mipMaps ==> size == 0
  {
    (if ddsHeader then MAGIC_SIZE + HDR else 0)
    + (if baseTex then LayerSize(img.width, img.height, f) else 0)
    + (if mipMaps then MipChainSize(img.mipMaps, f) else 0)
  }

  /** The block table: BGRA is 4 bytes a pixel, DXT1 8 bytes and DXT2-DXT5 16 bytes per 4x4 block. */
  lemma LayerSizeTable(w: nat, h: nat, f: DWORD)
    ensures f == FORMAT_BGRA ==> LayerSize(w, h, f) == w * h * 4
    ensures f == FORMAT_DXT1 ==> LayerSize(w, h, f) == CeilDiv(w, 4) * CeilDiv(h, 4) * 8
    ensures f != FORMAT_BGRA && f != FORMAT_DXT1 ==>
      LayerSize(w, h, f) == CeilDiv(w, 4) * CeilDiv(h, 4) * 16
  {
  }

  /**
    * The full size is the three partial sizes added together, which is how the
    * per-file statistics split header, base and mip bytes; with every part off it is 0.
    */
  lemma CompressedSizeSplits(img: LoadedImage, f: DWORD)
    ensures CompressedSize(img, f, true, true, true) ==
      CompressedSize(img, f, true, false, false) + CompressedSize(img, f, false, true, false)
      + CompressedSize(img, f, false, false, true)
    ensures CompressedSize(img, f, false, false, false) == 0
    ensures CompressedSize(img, f, true, false, false) == MAGIC_SIZE + HDR
  {
  }

  /** The mip chain size is additive over a split of the chain. */
  lemma {:induction false} MipChainSizeAppend(a: seq<MipMap>, b: seq<MipMap>, f: DWORD)
    ensures MipChainSize(a + b, f) == MipChainSize(a, f) + MipChainSize(b, f)
  {
    if a == [] {
      assert a + b == b;
    } else {
      assert (a + b)[1..] == a[1..] + b;
      MipChainSizeAppend(a[1..], b, f);
    }
  }

  /** A layer of at least one pixel occupies at least one block. */
  lemma LayerSizePositive(w: nat, h: nat, f: DWORD)
    requires w > 0 && h > 0
    ensures LayerSize(w, h, f) >= BlockBytes(f)
  {
    var cols, rows := CeilDiv(w, BlockDim(f)), CeilDiv(h, BlockDim(f));
    assert cols >= 1 && rows >= 1;
    assert cols * rows >= 1 by {
      assert cols * rows >= 1 * rows;
    }
    assert cols * rows * BlockBytes(f) >= 1 * BlockBytes(f);
  }

  /**
    * Two concrete sizes: a 128x128 DXT1 texture without mips is the
    * header plus 32x32 blocks of 8 bytes, and a 130x130 DXT5 base layer is a
    * 33x33 grid of 16-byte blocks.
    */
  lemma ExampleSizes(img: LoadedImage)
    ensures img.width == 128 && img.height == 128 ==>
      CompressedSize(img, FORMAT_DXT1, true, true, false) == 4 + HDR + 8192
    ensures img.width == 130 && img.height == 130 ==>
      CompressedSize(img, FORMAT_DXT5, false, true, false) == 33 * 33 * 16
  {
  }
}

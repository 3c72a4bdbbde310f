/**
  * The loaded image as the DDS exporter sees it: base-layer size and pixels,
  * alpha classification, and the mip chain, which the loader builds as a
  * linked list and which is held here as a sequence in chain order.
  */
module Images {
  import opened Common

  /** One entry of the mip chain. */
  datatype MipMap = MipMap(width: nat, height: nat, data: seq<byte>)

  datatype LoadedImage = LoadedImage(
    width: nat,
    height: nat,
    bpp: nat,                // bytes per pixel of the pixel buffers
    hasAlpha: bool,
    hasGradientAlpha: bool,
    data: seq<byte>,         // base-layer pixels, row after row
    mipMaps: seq<MipMap>)

  /**
    * The loader's pixel layout: BGR when the image has no alpha, BGRA when it
    * has, and every buffer holding exactly width*height pixels.
    */
  predicate PixelLayoutValid(img: LoadedImage) {
    img.bpp == (if img.hasAlpha then 4 else 3) &&
    |img.data| == img.width * img.height * img.bpp &&
    forall i :: 0 <= i < |img.mipMaps| ==>
      |img.mipMaps[i].data| == img.mipMaps[i].width * img.mipMaps[i].height * img.bpp
  }

  /**
    * The pixel whose bytes start at offset i, as four BGRA bytes: the first
    * three bytes are copied and the fourth is the pixel's alpha byte, or 255
    * (opaque) when the image has no alpha.
    */
  function BgraAt(data: seq<byte>, i: nat, hasAlpha: bool): (px: seq<byte>)
    requires i + (if hasAlpha then 4 else 3) <= |data|
    ensures |px| == 4
    ensures px[..3] == data[i..i + 3]
    ensures px[3] == if hasAlpha then data[i + 3] else 255
  {
    [data[i], data[i + 1], data[i + 2], if hasAlpha then data[i + 3] else 255]
  }

  /** Pixel k of a buffer with bpp bytes per pixel, as four BGRA bytes. */
  function BgraPixel(data: seq<byte>, k: nat, bpp: nat, hasAlpha: bool): (px: seq<byte>)
    requires Mul(k, bpp) + (if hasAlpha then 4 else 3) <= |data|
    ensures |px| == 4
  {
    BgraAt(data, Mul(k, bpp), hasAlpha)
  }

  // Pixel offsets are products of a pixel index and a pixel size. They are
  // written with Mul, multiplication as repeated addition, which MulIsProduct
  // equates with *.

  /** a * b as a sum of a copies of b. */
  function Mul(a: nat, b: nat): nat {
    if a == 0 then 0 else Mul(a - 1, b) + b
  }

  lemma {:induction false} MulIsProduct(a: nat, b: nat)
    ensures Mul(a, b) == a * b
  {
    if a > 0 {
      MulIsProduct(a - 1, b);
    }
  }

  lemma {:induction false} MulMono(a: nat, b: nat, s: nat)
    requires a <= b
    ensures Mul(a, s) <= Mul(b, s)
    decreases b - a
  {
    if a < b {
      MulMono(a + 1, b, s);
    }
  }
}

/**
  * The RwgTex packer tool: raw BGRA-family packing of every map of an image
  * into one output stream. Each pixel is written as four bytes (three colour
  * bytes, then alpha or 255) and the output pointer then advances by the
  * block's stride, bitlength / 8 bytes, which may be less than four.
  */
module RwgtpPacker {
  import opened Common
  import opened Images
  import Backends

  /** The output block layouts the packer is registered for, and any other. */
  datatype BlockKind = BlockBGRA | BlockBGR6 | BlockBGR3 | BlockBGR1 | OtherBlock

  /** A block layout: which one it is and its size in bits. */
  datatype Block = Block(kind: BlockKind, bitlength: nat)

  /** One map of the image's map list (the base image first, then its mips). */
  datatype ImageMap = ImageMap(width: nat, height: nat, data: seq<byte>)

  /** The parts of an encoding task the packer reads. */
  datatype EncodeTask = EncodeTask(block: Block, bpp: nat, hasAlpha: bool, maps: seq<ImageMap>)

  predicate Supported(b: Block) {
    b.kind != OtherBlock
  }

  /** Output bytes per pixel. */
  function Stride(b: Block): nat {
    b.bitlength / 8
  }

  // ---------------------------------------------------------------- offsets

  /** Pixel count of a map. */
  function Pixels(m: ImageMap): nat {
    Mul(m.width, m.height)
  }

  // ---------------------------------------------------------------- one map

  /** Every one of the n 4-byte writes, the last at at + (n-1)*s, lands inside a buffer of length len. */
  predicate WritesFit(at: nat, n: nat, s: nat, len: nat) {
    n == 0 || at + Mul(n - 1, s) + 4 <= len
  }

  /**
    * The buffer after the first k iterations of the packing loop: pixel i's
    * four BGRA bytes written at at + i*s, in order, so a later pixel's bytes
    * replace an earlier one's where they overlap.
    */
  function StridedPack(buf: seq<byte>, at: nat, data: seq<byte>, bpp: nat, hasAlpha: bool, s: nat, k: nat): (r: seq<byte>)
    requires Backends.PixelsAvailable(data, k, bpp, hasAlpha)
    requires WritesFit(at, k, s, |buf|)
    ensures |r| == |buf|
  {
    if k == 0 then buf
    else
      var prev := StridedPack(buf, at, data, bpp, hasAlpha, s, k - 1);
      Backends.Write4(prev, at + Mul(k - 1, s), BgraAt(data, Mul(k - 1, bpp), hasAlpha))
  }

  /** Pixel k's window [at + k*s, at + k*s + 4) holds p. */
  predicate Covers(at: nat, s: nat, k: nat, p: nat) {
    at + Mul(k, s) <= p < at + Mul(k, s) + 4
  }

  /**
    * Byte j of pixel k survives in the output when no later pixel overwrites
    * it: it lies before the next pixel's start (j < s), or k is the last pixel.
    */
  lemma {:induction false} StridedPackSurvives(buf: seq<byte>, at: nat, data: seq<byte>, bpp: nat, hasAlpha: bool,
                                               s: nat, n: nat, k: nat, j: nat)
    requires Backends.PixelsAvailable(data, n, bpp, hasAlpha) && WritesFit(at, n, s, |buf|)
    requires k < n && j < 4 && (j < s || k == n - 1)
    ensures Mul(k, bpp) + bpp <= |data| && at + Mul(k, s) + j < |buf|
    ensures StridedPack(buf, at, data, bpp, hasAlpha, s, n)[at + Mul(k, s) + j] == BgraAt(data, Mul(k, bpp), hasAlpha)[j]
    decreases n
  {
    if k < n - 1 {
      EarlierPixelKept(buf, at, data, bpp, hasAlpha, s, n, k, j);
      StridedPackSurvives(buf, at, data, bpp, hasAlpha, s, n - 1, k, j);
    } else {
      LastPixelWritten(buf, at, data, bpp, hasAlpha, s, n, j);
    }
  }

  /** Byte j of the last of n pixels is that pixel's byte j. */
  lemma LastPixelWritten(buf: seq<byte>, at: nat, data: seq<byte>, bpp: nat, hasAlpha: bool, s: nat, n: nat, j: nat)
    requires Backends.PixelsAvailable(data, n, bpp, hasAlpha) && WritesFit(at, n, s, |buf|)
    requires 0 < n && j < 4
    ensures Mul(n - 1, bpp) + bpp <= |data| && at + Mul(n - 1, s) + j < |buf|
    ensures StridedPack(buf, at, data, bpp, hasAlpha, s, n)[at + Mul(n - 1, s) + j] == BgraAt(data, Mul(n - 1, bpp), hasAlpha)[j]
  {
    MulMono(n - 1, n, bpp);
    var prev := StridedPack(buf, at, data, bpp, hasAlpha, s, n - 1);
    Backends.Write4Inside(prev, at + Mul(n - 1, s), BgraAt(data, Mul(n - 1, bpp), hasAlpha), at + Mul(n - 1, s) + j);
  }

  /**
    * Byte j of an earlier pixel k, with j < s, lies before the last pixel's
    * window, so the last write keeps it, and pixel k is inside the first n - 1.
    */
  lemma EarlierPixelKept(buf: seq<byte>, at: nat, data: seq<byte>, bpp: nat, hasAlpha: bool, s: nat, n: nat, k: nat, j: nat)
    requires Backends.PixelsAvailable(data, n, bpp, hasAlpha) && WritesFit(at, n, s, |buf|)
    requires k < n - 1 && j < 4 && j < s
    ensures Mul(k, bpp) + bpp <= |data| && at + Mul(k, s) + j < |buf|
    ensures Backends.PixelsAvailable(data, n - 1, bpp, hasAlpha) && WritesFit(at, n - 1, s, |buf|)
    ensures StridedPack(buf, at, data, bpp, hasAlpha, s, n)[at + Mul(k, s) + j]
      == StridedPack(buf, at, data, bpp, hasAlpha, s, n - 1)[at + Mul(k, s) + j]
  {
    MulMono(k + 1, n, bpp);
    MulMono(n - 1, n, bpp);
    MulMono(k + 1, n - 1, s);
    MulMono(n - 2, n - 1, s);
    var prev := StridedPack(buf, at, data, bpp, hasAlpha, s, n - 1);
    Backends.Write4Outside(prev, at + Mul(n - 1, s), BgraAt(data, Mul(n - 1, bpp), hasAlpha), at + Mul(k, s) + j);
  }

  /** A byte no pixel's window covers keeps its old value. */
  lemma {:induction false} StridedPackUntouched(buf: seq<byte>, at: nat, data: seq<byte>, bpp: nat, hasAlpha: bool,
                                                s: nat, n: nat, p: nat)
    requires Backends.PixelsAvailable(data, n, bpp, hasAlpha) && WritesFit(at, n, s, |buf|)
    requires p < |buf|
    requires forall k :: 0 <= k < n ==> !Covers(at, s, k, p)
    ensures StridedPack(buf, at, data, bpp, hasAlpha, s, n)[p] == buf[p]
    decreases n
  {
    if n > 0 {
      assert !Covers(at, s, n - 1, p);
      StridedPackUntouched(buf, at, data, bpp, hasAlpha, s, n - 1, p);
    }
  }

  /** A sequence x spliced into buf at at: what lies up to its end, and what lies past it. */
  lemma SpliceParts(buf: seq<byte>, at: nat, x: seq<byte>, q: nat)
    requires at + |x| <= q <= |buf|
    ensures (buf[..at] + x + buf[at + |x|..])[..at + |x|] == buf[..at] + x
    ensures (buf[..at] + x + buf[at + |x|..])[q..] == buf[q..]
  {
    var r := buf[..at] + x + buf[at + |x|..];
    assert |r| == |buf|;
    assert r[q..] == buf[q..] by {
      forall p | 0 <= p < |buf| - q
        ensures r[q..][p] == buf[q..][p]
      {
        assert r[q + p] == buf[at + |x|..][q + p - at - |x|];
      }
    }
  }

  /** Splicing x at at, then y right after it, splices x + y. */
  lemma SpliceTwice(buf: seq<byte>, at: nat, x: seq<byte>, y: seq<byte>, first: seq<byte>)
    requires at + |x| + |y| <= |buf| && first == buf[..at] + x + buf[at + |x|..]
    ensures first[..at + |x|] + y + first[at + |x| + |y|..] == buf[..at] + (x + y) + buf[at + |x| + |y|..]
  {
    SpliceParts(buf, at, x, at + |x| + |y|);
  }

  /** A chain that splices x in at at and then y at mid, right after it, has spliced xy = x + y in at at. */
  lemma SpliceChain(buf: seq<byte>, at: nat, mid: nat, end: nat, x: seq<byte>, y: seq<byte>, xy: seq<byte>,
                    first: seq<byte>, whole: seq<byte>)
    requires mid == at + |x| && end == mid + |y| && end <= |buf| && xy == x + y
    requires first == buf[..at] + x + buf[mid..]
    requires whole == first[..mid] + y + first[end..]
    ensures whole == buf[..at] + xy + buf[end..]
  {
    SpliceTwice(buf, at, x, y, first);
  }

  /**
    * With a 4-byte stride (the BGRA block) the packer writes exactly what the
    * DDS exporter's internal packer writes: n consecutive BGRA pixels at at.
    */
  lemma {:induction false} StridedPackMatchesInternal(buf: seq<byte>, at: nat, data: seq<byte>, bpp: nat,
                                                      hasAlpha: bool, n: nat)
    requires Backends.PixelsAvailable(data, n, bpp, hasAlpha)
    requires at + 4 * n <= |buf|
    ensures Backends.PixelsAvailable(data, n, bpp, hasAlpha) && WritesFit(at, n, 4, |buf|)
    ensures StridedPack(buf, at, data, bpp, hasAlpha, 4, n)
      == buf[..at] + Backends.PackedBgra(data, n, bpp, hasAlpha) + buf[at + 4 * n..]
    decreases n
  {
    StridedFits(buf, at, data, bpp, hasAlpha, n);
    if n > 0 {
      StridedPackMatchesInternal(buf, at, data, bpp, hasAlpha, n - 1);
      StridedStep(buf, at, data, bpp, hasAlpha, n);
    } else {
      SpliceNothing(buf, at);
    }
  }

  /** n BGRA pixels fit from at with stride 4 when 4n bytes do, and so do the first n - 1. */
  lemma StridedFits(buf: seq<byte>, at: nat, data: seq<byte>, bpp: nat, hasAlpha: bool, n: nat)
    requires Backends.PixelsAvailable(data, n, bpp, hasAlpha) && at + 4 * n <= |buf|
    ensures WritesFit(at, n, 4, |buf|)
    ensures n > 0 ==> Backends.PixelsAvailable(data, n - 1, bpp, hasAlpha) && at + 4 * (n - 1) <= |buf|
  {
    if n > 0 {
      MulMono(n - 1, n, bpp);
      MulIsProduct(n - 1, 4);
    }
  }

  /** The last of n stride-4 writes lands right after the first n - 1 pixels' BGRA bytes, extending them by one pixel. */
  lemma StridedStep(buf: seq<byte>, at: nat, data: seq<byte>, bpp: nat, hasAlpha: bool, n: nat)
    requires Backends.PixelsAvailable(data, n, bpp, hasAlpha) && at + 4 * n <= |buf| && n > 0
    requires Backends.PixelsAvailable(data, n - 1, bpp, hasAlpha) && WritesFit(at, n - 1, 4, |buf|)
    requires StridedPack(buf, at, data, bpp, hasAlpha, 4, n - 1)
      == buf[..at] + Backends.PackedBgra(data, n - 1, bpp, hasAlpha) + buf[at + 4 * (n - 1)..]
    ensures WritesFit(at, n, 4, |buf|)
    ensures StridedPack(buf, at, data, bpp, hasAlpha, 4, n)
      == buf[..at] + Backends.PackedBgra(data, n, bpp, hasAlpha) + buf[at + 4 * n..]
  {
    StridedFits(buf, at, data, bpp, hasAlpha, n);
    MulMono(n - 1, n, bpp);
    MulIsProduct(n - 1, 4);
    var prev := Backends.PackedBgra(data, n - 1, bpp, hasAlpha);
    var px := BgraAt(data, Mul(n - 1, bpp), hasAlpha);
    SpliceTwice(buf, at, prev, px, buf[..at] + prev + buf[at + |prev|..]);
  }

  lemma SpliceNothing(buf: seq<byte>, at: nat)
    requires at <= |buf|
    ensures buf[..at] + [] + buf[at..] == buf
  {
  }

  /**
    * Pixel k < n of the loop reads whole input bytes and writes inside the
    * stream, and its four stores take the buffer from k packed pixels to k + 1.
    */
  lemma PackStep(buf: seq<byte>, at: nat, data: seq<byte>, bpp: nat, hasAlpha: bool, s: nat, n: nat, k: nat)
    requires Backends.PixelsAvailable(data, n, bpp, hasAlpha) && WritesFit(at, n, s, |buf|)
    requires k < n
    ensures Mul(k, bpp) + bpp <= |data| && at + Mul(k, s) + 4 <= |buf|
    ensures Backends.PixelsAvailable(data, k, bpp, hasAlpha) && WritesFit(at, k, s, |buf|)
    ensures Backends.PixelsAvailable(data, k + 1, bpp, hasAlpha) && WritesFit(at, k + 1, s, |buf|)
    ensures StridedPack(buf, at, data, bpp, hasAlpha, s, k + 1)
      == Backends.Write4(StridedPack(buf, at, data, bpp, hasAlpha, s, k), at + Mul(k, s),
                         [data[Mul(k, bpp)], data[Mul(k, bpp) + 1], data[Mul(k, bpp) + 2],
                          if hasAlpha then data[Mul(k, bpp) + 3] else 255])
  {
    MulMono(k + 1, n, bpp);
    MulMono(k, n - 1, s);
    MulMono(k, k + 1, bpp);
    if k > 0 {
      MulMono(k - 1, k, s);
    }
    var px := BgraAt(data, Mul(k, bpp), hasAlpha);
    assert px == [data[Mul(k, bpp)], data[Mul(k, bpp) + 1], data[Mul(k, bpp) + 2],
                  if hasAlpha then data[Mul(k, bpp) + 3] else 255];
  }

  /** Store four bytes at offset o of the stream: one Write4 of the whole stream. */
  method StoreBgra(stream: array<byte>, o: nat, b0: byte, b1: byte, b2: byte, b3: byte)
    requires o + 4 <= stream.Length
    modifies stream
    ensures stream[..] == Backends.Write4(old(stream[..]), o, [b0, b1, b2, b3])
  {
    Backends.StorePixel(stream, o, b0, b1, b2, b3);
    Backends.StoreIsWrite4(old(stream[..]), stream[..], o, b0, b1, b2, b3);
  }

  /** The four stores of pixel k, at o = at + k*s: the stream goes from k packed pixels to k + 1. */
  method StorePackedPixel(stream: array<byte>, ghost buf: seq<byte>, at: nat, data: seq<byte>, bpp: nat, hasAlpha: bool,
                          s: nat, n: nat, ghost k: nat, o: nat, b0: byte, b1: byte, b2: byte, b3: byte)
    requires Backends.PixelsAvailable(data, n, bpp, hasAlpha) && WritesFit(at, n, s, |buf|) && k < n
    requires Mul(k, bpp) + bpp <= |data| && o == at + Mul(k, s)
    requires b0 == data[Mul(k, bpp)] && b1 == data[Mul(k, bpp) + 1] && b2 == data[Mul(k, bpp) + 2]
    requires b3 == if hasAlpha then data[Mul(k, bpp) + 3] else 255
    requires Backends.PixelsAvailable(data, k, bpp, hasAlpha) && WritesFit(at, k, s, |buf|)
    requires stream[..] == StridedPack(buf, at, data, bpp, hasAlpha, s, k)
    modifies stream
    ensures Backends.PixelsAvailable(data, k + 1, bpp, hasAlpha) && WritesFit(at, k + 1, s, |buf|)
    ensures stream[..] == StridedPack(buf, at, data, bpp, hasAlpha, s, k + 1)
  {
    PackStep(buf, at, data, bpp, hasAlpha, s, n, k);
    StoreBgra(stream, o, b0, b1, b2, b3);
  }

  /** The input cursor k*bpp is below n*bpp exactly while k < n. */
  lemma CursorBelowEnd(n: nat, bpp: nat, k: nat)
    requires bpp > 0
    ensures k < n <==> Mul(k, bpp) < Mul(n, bpp)
  {
    if k < n {
      MulMono(k + 1, n, bpp);
    } else {
      MulMono(n, k, bpp);
    }
  }

  /** The alpha branch of PackBGRAData: n pixels copied with their alpha, one every s output bytes. */
  method PackAlphaPixels(stream: array<byte>, at: nat, data: seq<byte>, n: nat, bpp: nat, s: nat)
    requires Backends.PixelsAvailable(data, n, bpp, true) && WritesFit(at, n, s, stream.Length)
    modifies stream
    ensures stream[..] == StridedPack(old(stream[..]), at, data, bpp, true, s, n)
  {
    var i, o, end := 0, at, Mul(n, bpp);
    ghost var k := 0;
    ghost var buf := stream[..];
    while i < end
      invariant k <= n && i == Mul(k, bpp) && o == at + Mul(k, s)
      invariant Backends.PixelsAvailable(data, k, bpp, true) && WritesFit(at, k, s, stream.Length)
      invariant stream[..] == StridedPack(buf, at, data, bpp, true, s, k)
      decreases end - i
    {
      CursorBelowEnd(n, bpp, k);
      PackStep(buf, at, data, bpp, true, s, n, k);
      StorePackedPixel(stream, buf, at, data, bpp, true, s, n, k, o, data[i], data[i + 1], data[i + 2], data[i + 3]);
      o := o + s;
      i := i + bpp;
      k := k + 1;
    }
    CursorBelowEnd(n, bpp, k);
  }

  /** The opaque branch of PackBGRAData: n pixels copied with alpha 255, one every s output bytes. */
  method PackOpaquePixels(stream: array<byte>, at: nat, data: seq<byte>, n: nat, bpp: nat, s: nat)
    requires Backends.PixelsAvailable(data, n, bpp, false) && WritesFit(at, n, s, stream.Length)
    modifies stream
    ensures stream[..] == StridedPack(old(stream[..]), at, data, bpp, false, s, n)
  {
    var i, o, end := 0, at, Mul(n, bpp);
    ghost var k := 0;
    ghost var buf := stream[..];
    while i < end
      invariant k <= n && i == Mul(k, bpp) && o == at + Mul(k, s)
      invariant Backends.PixelsAvailable(data, k, bpp, false) && WritesFit(at, k, s, stream.Length)
      invariant stream[..] == StridedPack(buf, at, data, bpp, false, s, k)
      decreases end - i
    {
      CursorBelowEnd(n, bpp, k);
      PackStep(buf, at, data, bpp, false, s, n, k);
      StorePackedPixel(stream, buf, at, data, bpp, false, s, n, k, o, data[i], data[i + 1], data[i + 2], 255);
      o := o + s;
      i := i + bpp;
      k := k + 1;
    }
    CursorBelowEnd(n, bpp, k);
  }

  /** The data a supported map needs: a whole pixel per bpp bytes, and room in the stream for every write. */
  predicate MapReady(t: EncodeTask, at: nat, len: nat, m: ImageMap) {
    Supported(t.block) ==>
      Backends.PixelsAvailable(m.data, Pixels(m), t.bpp, t.hasAlpha) && WritesFit(at, Pixels(m), Stride(t.block), len)
  }

  /** Bytes PackBGRAData reports for one map: width*height*stride, or 0 for an unsupported block. */
  function MapSize(t: EncodeTask, m: ImageMap): nat {
    if Supported(t.block) then Mul(Pixels(m), Stride(t.block)) else 0
  }

  lemma MapSizeIsProduct(t: EncodeTask, m: ImageMap)
    ensures Supported(t.block) ==> MapSize(t, m) == m.width * m.height * Stride(t.block)
    ensures !Supported(t.block) ==> MapSize(t, m) == 0
  {
    MulIsProduct(m.width, m.height);
    MulIsProduct(Pixels(m), Stride(t.block));
  }

  /** One map packed the way PackBGRAData packs it. */
  function PackMap(buf: seq<byte>, at: nat, t: EncodeTask, m: ImageMap): (r: seq<byte>)
    requires MapReady(t, at, |buf|, m)
    ensures |r| == |buf|
  {
    if Supported(t.block) then StridedPack(buf, at, m.data, t.bpp, t.hasAlpha, Stride(t.block), Pixels(m))
    else buf
  }

  /**
    * PackBGRAData: on a supported block, write the map's width*height pixels
    * with the block's stride and return width*height*stride; on any other
    * block, write nothing and return 0.
    */
  method PackBGRAData(t: EncodeTask, stream: array<byte>, at: nat, data: seq<byte>, width: nat, height: nat)
    returns (written: nat)
    requires MapReady(t, at, stream.Length, ImageMap(width, height, data))
    modifies stream
    ensures written == MapSize(t, ImageMap(width, height, data))
    ensures stream[..] == PackMap(old(stream[..]), at, t, ImageMap(width, height, data))
  {
    if !Supported(t.block) {
      return 0;
    }
    var n := Mul(width, height);
    var s := Stride(t.block);
    if t.hasAlpha {
      PackAlphaPixels(stream, at, data, n, t.bpp, s);
    } else {
      PackOpaquePixels(stream, at, data, n, t.bpp, s);
    }
    return Mul(n, s);
  }

  // ---------------------------------------------------------------- the map chain

  /** Sum of the reported sizes of maps[..i], in list order: where the stream pointer stands before map i. */
  function ChainSize(t: EncodeTask, maps: seq<ImageMap>, i: nat): nat
    requires i <= |maps|
  {
    if i == 0 then 0 else ChainSize(t, maps, i - 1) + MapSize(t, maps[i - 1])
  }

  /** Maps i onwards are each ready at the offset where the maps before them leave the stream pointer. */
  predicate ChainReady(t: EncodeTask, at: nat, len: nat, maps: seq<ImageMap>, i: nat)
    requires i <= |maps|
    decreases |maps| - i
  {
    i == |maps| || (MapReady(t, at, len, maps[i]) && ChainReady(t, at + MapSize(t, maps[i]), len, maps, i + 1))
  }

  /** The stream after packing maps i onwards from at, each starting where the previous one's reported size ends. */
  function PackChain(buf: seq<byte>, at: nat, t: EncodeTask, maps: seq<ImageMap>, i: nat): (r: seq<byte>)
    requires i <= |maps| && ChainReady(t, at, |buf|, maps, i)
    ensures |r| == |buf|
    decreases |maps| - i
  {
    if i == |maps| then buf
    else PackChain(PackMap(buf, at, t, maps[i]), at + MapSize(t, maps[i]), t, maps, i + 1)
  }

  /**
    * The state of the map loop over orig: maps before i are packed into s,
    * the pointer pos stands where their reported sizes add up to, and packing
    * the rest of the maps from pos over s gives what the whole chain gives.
    */
  predicate ChainLoop(t: EncodeTask, orig: seq<byte>, at: nat, s: seq<byte>, pos: nat, maps: seq<ImageMap>, i: nat) {
    && i <= |maps| && |s| == |orig| && ChainReady(t, at, |orig|, maps, 0)
    && pos == at + ChainSize(t, maps, i)
    && ChainReady(t, pos, |s|, maps, i)
    && PackChain(s, pos, t, maps, i) == PackChain(orig, at, t, maps, 0)
  }

  /** Before the first map the loop state holds trivially. */
  lemma ChainLoopStart(t: EncodeTask, orig: seq<byte>, at: nat, maps: seq<ImageMap>)
    requires ChainReady(t, at, |orig|, maps, 0)
    ensures ChainLoop(t, orig, at, orig, at, maps, 0)
  {
  }

  /** In the loop state, map i is ready to be packed at pos. */
  lemma ChainLoopReady(t: EncodeTask, orig: seq<byte>, at: nat, s: seq<byte>, pos: nat, maps: seq<ImageMap>, i: nat)
    requires ChainLoop(t, orig, at, s, pos, maps, i) && i < |maps|
    ensures MapReady(t, pos, |s|, ImageMap(maps[i].width, maps[i].height, maps[i].data))
  {
    assert ImageMap(maps[i].width, maps[i].height, maps[i].data) == maps[i];
  }

  /** One turn of the map loop: map i packed at pos and the pointer advanced by its reported size keep the loop state. */
  lemma ChainAdvance(t: EncodeTask, orig: seq<byte>, at: nat, before: seq<byte>, after: seq<byte>, pos: nat, written: nat,
                     maps: seq<ImageMap>, i: nat)
    requires ChainLoop(t, orig, at, before, pos, maps, i) && i < |maps|
    requires MapReady(t, pos, |before|, ImageMap(maps[i].width, maps[i].height, maps[i].data))
    requires after == PackMap(before, pos, t, ImageMap(maps[i].width, maps[i].height, maps[i].data))
    requires written == MapSize(t, ImageMap(maps[i].width, maps[i].height, maps[i].data))
    ensures ChainLoop(t, orig, at, after, pos + written, maps, i + 1)
  {
    assert ImageMap(maps[i].width, maps[i].height, maps[i].data) == maps[i];
    PackChainStep(before, pos, t, maps, i);
    ChainSizeStep(t, maps, i);
  }

  /** After the last map the stream is what the whole chain gives. */
  lemma ChainLoopDone(t: EncodeTask, orig: seq<byte>, at: nat, s: seq<byte>, pos: nat, maps: seq<ImageMap>, i: nat)
    requires ChainLoop(t, orig, at, s, pos, maps, i) && i == |maps|
    ensures s == PackChain(orig, at, t, maps, 0)
  {
  }

  /**
    * ToolRWGTP_Compress: pack every map of the list back to back, each at the
    * stream offset the previous maps' reported sizes add up to; the result is
    * always success.
    */
  method ToolRWGTP_Compress(t: EncodeTask, stream: array<byte>, at: nat) returns (ok: bool)
    requires ChainReady(t, at, stream.Length, t.maps, 0)
    modifies stream
    ensures ok
    ensures stream[..] == PackChain(old(stream[..]), at, t, t.maps, 0)
  {
    var maps := t.maps;
    var pos := at;
    var i := 0;
    ChainLoopStart(t, stream[..], at, maps);
    while i < |maps|
      invariant ChainLoop(t, old(stream[..]), at, stream[..], pos, maps, i)
      decreases |maps| - i
    {
      var m := maps[i];
      ChainLoopReady(t, old(stream[..]), at, stream[..], pos, maps, i);
      ghost var before := stream[..];
      var written := PackBGRAData(t, stream, pos, m.data, m.width, m.height);
      ChainAdvance(t, old(stream[..]), at, before, stream[..], pos, written, maps, i);
      pos := pos + written;
      i := i + 1;
    }
    ChainLoopDone(t, old(stream[..]), at, stream[..], pos, maps, i);
    return true;
  }

  /** With an unsupported block, packing maps i onwards reports 0 bytes and leaves the stream as it was. */
  lemma {:induction false} PackChainUnsupported(buf: seq<byte>, at: nat, t: EncodeTask, maps: seq<ImageMap>, i: nat)
    requires i <= |maps| && ChainReady(t, at, |buf|, maps, i)
    requires !Supported(t.block)
    ensures ChainSize(t, maps, |maps|) == ChainSize(t, maps, i)
    ensures PackChain(buf, at, t, maps, i) == buf
    decreases |maps| - i
  {
    if i < |maps| {
      PackChainUnsupported(buf, at, t, maps, i + 1);
      ChainSizeUnsupported(t, maps, i + 1);
    }
  }

  lemma {:induction false} ChainSizeUnsupported(t: EncodeTask, maps: seq<ImageMap>, j: nat)
    requires 0 < j <= |maps| && !Supported(t.block)
    ensures ChainSize(t, maps, j) == ChainSize(t, maps, j - 1)
  {
  }

  /** Every map's pixels are present. */
  predicate MapsReady(t: EncodeTask, maps: seq<ImageMap>) {
    forall i :: 0 <= i < |maps| ==> Backends.PixelsAvailable(maps[i].data, Pixels(maps[i]), t.bpp, t.hasAlpha)
  }

  /** Total pixel count of maps i onwards. */
  function MapPixels(maps: seq<ImageMap>, i: nat): nat
    requires i <= |maps|
    decreases |maps| - i
  {
    if i == |maps| then 0 else Pixels(maps[i]) + MapPixels(maps, i + 1)
  }

  /** The BGRA bytes of maps i onwards, concatenated in list order. */
  function PackedMaps(t: EncodeTask, maps: seq<ImageMap>, i: nat): (r: seq<byte>)
    requires i <= |maps| && MapsReady(t, maps)
    ensures |r| == 4 * MapPixels(maps, i)
    decreases |maps| - i
  {
    if i == |maps| then []
    else
      Backends.PackedBgra(maps[i].data, Pixels(maps[i]), t.bpp, t.hasAlpha) + PackedMaps(t, maps, i + 1)
  }

  /**
    * With the 4-byte BGRA stride, maps i onwards fit one after another in
    * 4 bytes a pixel, and their reported sizes add up to that length.
    */
  lemma {:induction false} ContiguousReady(t: EncodeTask, at: nat, len: nat, maps: seq<ImageMap>, i: nat)
    requires Supported(t.block) && Stride(t.block) == 4
    requires i <= |maps| && MapsReady(t, maps)
    requires at + 4 * MapPixels(maps, i) <= len
    ensures ChainReady(t, at, len, maps, i)
    ensures ChainSize(t, maps, |maps|) == ChainSize(t, maps, i) + 4 * MapPixels(maps, i)
    decreases |maps| - i
  {
    if i < |maps| {
      var m := maps[i];
      var n := Pixels(m);
      assert Backends.PixelsAvailable(m.data, n, t.bpp, t.hasAlpha);
      assert MapPixels(maps, i) == n + MapPixels(maps, i + 1);
      if n > 0 {
        MulIsProduct(n - 1, 4);
      }
      assert WritesFit(at, n, 4, len);
      BgraMapReady(t, at, len, m);
      ContiguousReady(t, at + 4 * n, len, maps, i + 1);
      ChainReadyCons(t, at, len, maps, i);
      ChainSizeStep(t, maps, i);
    }
  }

  /**
    * With the 4-byte BGRA stride the maps do not overlap: from at the stream
    * holds the BGRA pixels of maps i onwards back to back, in list order, and
    * nothing outside is touched.
    */
  lemma {:induction false} PackChainContiguous(buf: seq<byte>, at: nat, t: EncodeTask, maps: seq<ImageMap>, i: nat)
    requires Supported(t.block) && Stride(t.block) == 4
    requires i <= |maps| && MapsReady(t, maps)
    requires at + 4 * MapPixels(maps, i) <= |buf| && ChainReady(t, at, |buf|, maps, i)
    ensures PackChain(buf, at, t, maps, i) == buf[..at] + PackedMaps(t, maps, i) + buf[at + 4 * MapPixels(maps, i)..]
    decreases |maps| - i
  {
    if i < |maps| {
      var first, next := ContiguousSplice(buf, at, t, maps, i);
      PackChainContiguous(first, next, t, maps, i + 1);
      ContiguousJoin(buf, at, t, maps, i, first, next);
    } else {
      ContiguousNil(buf, at, t, maps, i);
    }
  }

  /** Past the last map, the chain leaves the stream as it is and there are no maps to splice in. */
  lemma ContiguousNil(buf: seq<byte>, at: nat, t: EncodeTask, maps: seq<ImageMap>, i: nat)
    requires i == |maps| && MapsReady(t, maps) && at <= |buf|
    ensures ChainReady(t, at, |buf|, maps, i) && at + 4 * MapPixels(maps, i) <= |buf|
    ensures PackChain(buf, at, t, maps, i) == buf[..at] + PackedMaps(t, maps, i) + buf[at + 4 * MapPixels(maps, i)..]
  {
    SpliceNothing(buf, at);
  }

  /**
    * Map i's BGRA bytes spliced into buf at at give first, the chain goes on
    * at next, and packing maps i onwards over buf is packing maps i+1 onwards
    * over first.
    */
  predicate SplicedStep(buf: seq<byte>, at: nat, t: EncodeTask, maps: seq<ImageMap>, i: nat, first: seq<byte>, next: nat)
    requires i < |maps| && at + 4 * MapPixels(maps, i) <= |buf| && ChainReady(t, at, |buf|, maps, i)
  {
    && Backends.PixelsAvailable(maps[i].data, Pixels(maps[i]), t.bpp, t.hasAlpha)
    && next == at + 4 * Pixels(maps[i])
    && next <= |buf|
    && first == buf[..at] + Backends.PackedBgra(maps[i].data, Pixels(maps[i]), t.bpp, t.hasAlpha) + buf[next..]
    && |first| == |buf| && next + 4 * MapPixels(maps, i + 1) <= |first|
    && ChainReady(t, next, |first|, maps, i + 1)
    && PackChain(buf, at, t, maps, i) == PackChain(first, next, t, maps, i + 1)
  }

  /** Map i of the chain, packed with the 4-byte stride: its BGRA bytes spliced into buf at at, giving first; the chain goes on at next. */
  lemma ContiguousSplice(buf: seq<byte>, at: nat, t: EncodeTask, maps: seq<ImageMap>, i: nat)
    returns (first: seq<byte>, next: nat)
    requires Supported(t.block) && Stride(t.block) == 4
    requires i < |maps| && MapsReady(t, maps)
    requires at + 4 * MapPixels(maps, i) <= |buf| && ChainReady(t, at, |buf|, maps, i)
    ensures SplicedStep(buf, at, t, maps, i, first, next)
  {
    PackedMapsCons(t, maps, i);
    next := at + 4 * Pixels(maps[i]);
    first := buf[..at] + Backends.PackedBgra(maps[i].data, Pixels(maps[i]), t.bpp, t.hasAlpha) + buf[next..];
    PackChainStepBgra(buf, at, t, maps, i, first, next);
  }

  /**
    * Map i's BGRA bytes spliced in at at, then maps i+1 onwards right after
    * them: if the chain from map i is the chain from map i+1 over first, and
    * that one is contiguous, the chain from map i is contiguous.
    */
  lemma ContiguousJoin(buf: seq<byte>, at: nat, t: EncodeTask, maps: seq<ImageMap>, i: nat, first: seq<byte>, next: nat)
    requires i < |maps| && MapsReady(t, maps) && at + 4 * MapPixels(maps, i) <= |buf| && ChainReady(t, at, |buf|, maps, i)
    requires SplicedStep(buf, at, t, maps, i, first, next)
    requires PackChain(first, next, t, maps, i + 1)
      == first[..next] + PackedMaps(t, maps, i + 1) + first[next + 4 * MapPixels(maps, i + 1)..]
    ensures PackChain(buf, at, t, maps, i) == buf[..at] + PackedMaps(t, maps, i) + buf[at + 4 * MapPixels(maps, i)..]
  {
    ContiguousSplices(buf, at, t, maps, i, first, next);
  }

  /** Map i's BGRA bytes spliced in at at, then maps i+1 onwards right after them: maps i onwards spliced in at at. */
  lemma ContiguousSplices(buf: seq<byte>, at: nat, t: EncodeTask, maps: seq<ImageMap>, i: nat, first: seq<byte>, next: nat)
    requires i < |maps| && MapsReady(t, maps) && at + 4 * MapPixels(maps, i) <= |buf|
    requires Backends.PixelsAvailable(maps[i].data, Pixels(maps[i]), t.bpp, t.hasAlpha)
    requires next == at + 4 * Pixels(maps[i])
    requires first == buf[..at] + Backends.PackedBgra(maps[i].data, Pixels(maps[i]), t.bpp, t.hasAlpha) + buf[next..]
    ensures next + 4 * MapPixels(maps, i + 1) <= |first|
    ensures first[..next] + PackedMaps(t, maps, i + 1) + first[next + 4 * MapPixels(maps, i + 1)..]
      == buf[..at] + PackedMaps(t, maps, i) + buf[at + 4 * MapPixels(maps, i)..]
  {
    PackedMapsCons(t, maps, i);
    var pm := Backends.PackedBgra(maps[i].data, Pixels(maps[i]), t.bpp, t.hasAlpha);
    SpliceChain(buf, at, next, at + 4 * MapPixels(maps, i), pm, PackedMaps(t, maps, i + 1), PackedMaps(t, maps, i),
                first, first[..next] + PackedMaps(t, maps, i + 1) + first[next + 4 * MapPixels(maps, i + 1)..]);
  }

  /** With the 4-byte stride, packing map i splices its BGRA bytes in at at, giving first, and the chain goes on at next, right after them. */
  lemma PackChainStepBgra(buf: seq<byte>, at: nat, t: EncodeTask, maps: seq<ImageMap>, i: nat, first: seq<byte>, next: nat)
    requires Supported(t.block) && Stride(t.block) == 4
    requires i < |maps| && ChainReady(t, at, |buf|, maps, i)
    requires Backends.PixelsAvailable(maps[i].data, Pixels(maps[i]), t.bpp, t.hasAlpha)
    requires next == at + 4 * Pixels(maps[i]) && next <= |buf|
    requires first == buf[..at] + Backends.PackedBgra(maps[i].data, Pixels(maps[i]), t.bpp, t.hasAlpha) + buf[next..]
    ensures ChainReady(t, next, |first|, maps, i + 1)
    ensures PackChain(buf, at, t, maps, i) == PackChain(first, next, t, maps, i + 1)
  {
    var m := maps[i];
    PackMapBgra(buf, at, t, m, first);
    PackChainStep(buf, at, t, maps, i);
    SameChain(PackMap(buf, at, t, m), first, at + MapSize(t, m), next, t, maps, i + 1);
  }

  /** Equal streams and equal offsets give the same chain. */
  lemma SameChain(a: seq<byte>, b: seq<byte>, p: nat, q: nat, t: EncodeTask, maps: seq<ImageMap>, i: nat)
    requires a == b && p == q && i <= |maps| && ChainReady(t, p, |a|, maps, i)
    ensures ChainReady(t, q, |b|, maps, i) && PackChain(a, p, t, maps, i) == PackChain(b, q, t, maps, i)
  {
  }

  /** Maps i onwards: map i's BGRA bytes, then the rest. */
  lemma PackedMapsCons(t: EncodeTask, maps: seq<ImageMap>, i: nat)
    requires i < |maps| && MapsReady(t, maps)
    ensures Backends.PixelsAvailable(maps[i].data, Pixels(maps[i]), t.bpp, t.hasAlpha)
    ensures MapPixels(maps, i) == Pixels(maps[i]) + MapPixels(maps, i + 1)
    ensures PackedMaps(t, maps, i)
      == Backends.PackedBgra(maps[i].data, Pixels(maps[i]), t.bpp, t.hasAlpha) + PackedMaps(t, maps, i + 1)
  {
  }

  /** One map packed with the 4-byte stride gives first: buf with the map's BGRA bytes spliced in at at. */
  lemma PackMapBgra(buf: seq<byte>, at: nat, t: EncodeTask, m: ImageMap, first: seq<byte>)
    requires Supported(t.block) && Stride(t.block) == 4
    requires Backends.PixelsAvailable(m.data, Pixels(m), t.bpp, t.hasAlpha) && at + 4 * Pixels(m) <= |buf|
    requires first == buf[..at] + Backends.PackedBgra(m.data, Pixels(m), t.bpp, t.hasAlpha) + buf[at + 4 * Pixels(m)..]
    ensures MapReady(t, at, |buf|, m) && MapSize(t, m) == 4 * Pixels(m)
    ensures PackMap(buf, at, t, m) == first
  {
    var n := Pixels(m);
    if n > 0 {
      MulIsProduct(n - 1, 4);
    }
    assert WritesFit(at, n, 4, |buf|);
    StridedPackMatchesInternal(buf, at, m.data, t.bpp, t.hasAlpha, n);
    BgraMapReady(t, at, |buf|, m);
  }

  /** A map packed with the 4-byte stride is ready when the stream has room for all its bytes; it reports 4 bytes a pixel. */
  lemma BgraMapReady(t: EncodeTask, at: nat, len: nat, m: ImageMap)
    requires Supported(t.block) && Stride(t.block) == 4
    requires Backends.PixelsAvailable(m.data, Pixels(m), t.bpp, t.hasAlpha) && WritesFit(at, Pixels(m), 4, len)
    ensures MapReady(t, at, len, m)
    ensures MapSize(t, m) == 4 * Pixels(m)
  {
    MulIsProduct(Pixels(m), 4);
  }

  lemma ChainReadyCons(t: EncodeTask, at: nat, len: nat, maps: seq<ImageMap>, i: nat)
    requires i < |maps| && MapReady(t, at, len, maps[i])
    requires ChainReady(t, at + MapSize(t, maps[i]), len, maps, i + 1)
    ensures ChainReady(t, at, len, maps, i)
  {
  }

  lemma ChainSizeStep(t: EncodeTask, maps: seq<ImageMap>, i: nat)
    requires i < |maps|
    ensures ChainSize(t, maps, i + 1) == ChainSize(t, maps, i) + MapSize(t, maps[i])
  {
  }

  lemma PackChainStep(buf: seq<byte>, at: nat, t: EncodeTask, maps: seq<ImageMap>, i: nat)
    requires i < |maps| && ChainReady(t, at, |buf|, maps, i)
    ensures MapReady(t, at, |buf|, maps[i])
    ensures ChainReady(t, at + MapSize(t, maps[i]), |buf|, maps, i + 1)
    ensures PackChain(buf, at, t, maps, i)
      == PackChain(PackMap(buf, at, t, maps[i]), at + MapSize(t, maps[i]), t, maps, i + 1)
  {
  }
}

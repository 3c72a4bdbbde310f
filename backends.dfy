/**
  * The compressor backends as seen from the exporter: the DDS code each
  * library is asked for (NVIDIA DDS Utilities, NVIDIA Texture Tools, ATI
  * Compress), the dispatch on the selected tool, and the internal BGRA packer,
  * which writes pixels straight into the destination buffer.
  */
module Backends {
  import opened Common
  import opened Formats
  import opened Images
  import opened SizeModel
  import opened FormatPolicy

  // ---------------------------------------------------------------- library formats

  /** NVIDIA DDS Utilities texture formats. */
  datatype NvDxtFormat = kDXT1 | kDXT1a | kDXT3 | kDXT5
  datatype NvDxtSettings = NvDxtSettings(format: NvDxtFormat, forceDXT1FourColors: bool)

  /** NVIDIA Texture Tools formats. */
  datatype NvttFormat = Format_DXT1 | Format_DXT1a | Format_DXT3 | Format_DXT5

  /** ATI Compress formats; DXT1 with punch-through alpha is a flag beside the format. */
  datatype AtiFormat = ATI_TC_FORMAT_DXT1 | ATI_TC_FORMAT_DXT3 | ATI_TC_FORMAT_DXT5
  datatype AtiSettings = AtiSettings(format: AtiFormat, dxt1UseAlpha: bool)

  /** The S3TC block encodings: DXT1 opaque, DXT1 with 1-bit alpha, DXT3 and DXT5. */
  datatype S3tc = BC1 | BC1a | BC2 | BC3

  /**
    * The settings NvDXTlibCompress gives the library, or None when it rejects
    * the code: it accepts exactly DXT1-DXT5, takes DXT1 with 1-bit alpha when
    * the image has alpha, and forces four-colour DXT1 blocks exactly for opaque DXT1.
    */
  function NvDxtOptions(f: DWORD, hasAlpha: bool): (o: Option<NvDxtSettings>)
    ensures o.Some? <==> IsKnownFormat(f) && f != FORMAT_BGRA
    ensures o.Some? ==> (o.value.forceDXT1FourColors <==> f == FORMAT_DXT1 && !hasAlpha)
    ensures o.Some? ==> (o.value.format == kDXT1a <==> f == FORMAT_DXT1 && hasAlpha)
  {
    if f == FORMAT_DXT1 then
      (if hasAlpha then Some(NvDxtSettings(kDXT1a, false)) else Some(NvDxtSettings(kDXT1, true)))
    else if f == FORMAT_DXT2 || f == FORMAT_DXT3 then Some(NvDxtSettings(kDXT3, false))
    else if f == FORMAT_DXT4 || f == FORMAT_DXT5 then Some(NvDxtSettings(kDXT5, false))
    else None
  }

  /**
    * The format NvTTlibCompress asks for, or None when it rejects the code: it
    * accepts exactly DXT1-DXT5 and picks the 1-bit alpha DXT1 exactly for DXT1
    * with alpha.
    */
  function NvttOptions(f: DWORD, hasAlpha: bool): (o: Option<NvttFormat>)
    ensures o.Some? <==> IsKnownFormat(f) && f != FORMAT_BGRA
    ensures o == Some(Format_DXT1a) <==> f == FORMAT_DXT1 && hasAlpha
  {
    if f == FORMAT_DXT1 then (if hasAlpha then Some(Format_DXT1a) else Some(Format_DXT1))
    else if f == FORMAT_DXT2 || f == FORMAT_DXT3 then Some(Format_DXT3)
    else if f == FORMAT_DXT4 || f == FORMAT_DXT5 then Some(Format_DXT5)
    else None
  }

  /**
    * The settings AtiCompress asks for, or None when it rejects the code: it
    * accepts exactly DXT1-DXT5 and turns DXT1 alpha on exactly for DXT1 with alpha.
    */
  function AtiOptions(f: DWORD, hasAlpha: bool): (o: Option<AtiSettings>)
    ensures o.Some? <==> IsKnownFormat(f) && f != FORMAT_BGRA
    ensures o.Some? ==> (o.value.dxt1UseAlpha <==> f == FORMAT_DXT1 && hasAlpha)
  {
    if f == FORMAT_DXT1 then Some(AtiSettings(ATI_TC_FORMAT_DXT1, hasAlpha))
    else if f == FORMAT_DXT2 || f == FORMAT_DXT3 then Some(AtiSettings(ATI_TC_FORMAT_DXT3, false))
    else if f == FORMAT_DXT4 || f == FORMAT_DXT5 then Some(AtiSettings(ATI_TC_FORMAT_DXT5, false))
    else None
  }

  function NvDxtEncoding(s: NvDxtSettings): S3tc {
    match s.format
    case kDXT1 => BC1
    case kDXT1a => BC1a
    case kDXT3 => BC2
    case kDXT5 => BC3
  }

  function NvttEncoding(f: NvttFormat): S3tc {
    match f
    case Format_DXT1 => BC1
    case Format_DXT1a => BC1a
    case Format_DXT3 => BC2
    case Format_DXT5 => BC3
  }

  function AtiEncoding(s: AtiSettings): S3tc {
    match s.format
    case ATI_TC_FORMAT_DXT1 => if s.dxt1UseAlpha then BC1a else BC1
    case ATI_TC_FORMAT_DXT3 => BC2
    case ATI_TC_FORMAT_DXT5 => BC3
  }

  /**
    * The mapping every library backend implements: DXT1 (with 1-bit alpha when
    * the image has alpha), DXT2 and DXT3 as DXT3 blocks, DXT4 and DXT5 as DXT5
    * blocks, anything else rejected.
    */
  function S3tcFor(f: DWORD, hasAlpha: bool): (e: Option<S3tc>)
    ensures e.None? <==> !(f == FORMAT_DXT1 || f == FORMAT_DXT2 || f == FORMAT_DXT3 ||
                           f == FORMAT_DXT4 || f == FORMAT_DXT5)
    ensures f == FORMAT_BGRA ==> e.None?
    ensures f == FORMAT_DXT1 ==> e == Some(if hasAlpha then BC1a else BC1)
    ensures e == Some(BC2) <==> f == FORMAT_DXT2 || f == FORMAT_DXT3
    ensures e == Some(BC3) <==> f == FORMAT_DXT4 || f == FORMAT_DXT5
  {
    if f == FORMAT_DXT1 then Some(if hasAlpha then BC1a else BC1)
    else if f == FORMAT_DXT2 || f == FORMAT_DXT3 then Some(BC2)
    else if f == FORMAT_DXT4 || f == FORMAT_DXT5 then Some(BC3)
    else None
  }

  /** The three library backends accept the same codes and encode each the same way. */
  lemma LibraryBackendsAgree(f: DWORD, hasAlpha: bool)
    ensures NvDxtOptions(f, hasAlpha).None? <==> S3tcFor(f, hasAlpha).None?
    ensures NvttOptions(f, hasAlpha).None? <==> S3tcFor(f, hasAlpha).None?
    ensures AtiOptions(f, hasAlpha).None? <==> S3tcFor(f, hasAlpha).None?
    ensures NvDxtOptions(f, hasAlpha).Some? ==>
      Some(NvDxtEncoding(NvDxtOptions(f, hasAlpha).value)) == S3tcFor(f, hasAlpha)
    ensures NvttOptions(f, hasAlpha).Some? ==>
      Some(NvttEncoding(NvttOptions(f, hasAlpha).value)) == S3tcFor(f, hasAlpha)
    ensures AtiOptions(f, hasAlpha).Some? ==>
      Some(AtiEncoding(AtiOptions(f, hasAlpha).value)) == S3tcFor(f, hasAlpha)
  {
  }

  /** Bytes per 4x4 block of an S3TC encoding. */
  function S3tcBlockBytes(e: S3tc): nat {
    if e == BC1 || e == BC1a then 8 else 16
  }

  /** The block size a library writes is the one the size model reserves for that code. */
  lemma LibraryBlockMatchesSizeModel(f: DWORD, hasAlpha: bool)
    requires S3tcFor(f, hasAlpha).Some?
    ensures S3tcBlockBytes(S3tcFor(f, hasAlpha).value) == BlockBytes(f)
    ensures BlockDim(f) == 4
  {
  }

  // ---------------------------------------------------------------- dispatch

  /** What the exporter's tool dispatch does with a format. */
  datatype Outcome =
    | Encodes(encoding: S3tc)   // a library compressor runs
    | PacksRaw                  // the internal BGRA packer runs
    | Unsupported               // the backend warns and returns false
    | BadTool                   // no backend for the tool: a fatal error

  function Dispatch(tool: Tool, f: DWORD, hasAlpha: bool): (o: Outcome)
    ensures o == BadTool <==> tool == Autoselect
    ensures o == PacksRaw <==> tool == Internal && f == FORMAT_BGRA
    ensures o.Encodes? ==> Some(o.encoding) == S3tcFor(f, hasAlpha)
    ensures tool in {Ati, Nvidia, NvidiaTT} ==> (o.Encodes? <==> S3tcFor(f, hasAlpha).Some?)
    ensures tool == Internal && f != FORMAT_BGRA ==> o == Unsupported
  {
    match tool
    case Ati => (match AtiOptions(f, hasAlpha)
                 case Some(s) => Encodes(AtiEncoding(s))
                 case None => Unsupported)
    case Nvidia => (match NvDxtOptions(f, hasAlpha)
                    case Some(s) => Encodes(NvDxtEncoding(s))
                    case None => Unsupported)
    case NvidiaTT => (match NvttOptions(f, hasAlpha)
                      case Some(e) => Encodes(NvttEncoding(e))
                      case None => Unsupported)
    case Internal => if f == FORMAT_BGRA then PacksRaw else Unsupported
    case Autoselect => BadTool
  }

  /**
    * With no forced format or any of the six named codes forced, and a library
    * or automatic compressor, the resolved tool accepts the resolved format.
    */
  lemma ResolvedFormatIsSupported(opt: Options, m: FileMatches, hasAlpha: bool, hasGradientAlpha: bool)
    requires opt.forceFormat == 0 || IsKnownFormat(opt.forceFormat)
    requires opt.compressor != Internal
    ensures var d := Resolve(opt, m, hasAlpha, hasGradientAlpha);
      Dispatch(d.tool, d.formatCC, hasAlpha) != Unsupported &&
      Dispatch(d.tool, d.formatCC, hasAlpha) != BadTool
  {
    var d := Resolve(opt, m, hasAlpha, hasGradientAlpha);
    var chosen := ChosenFormat(opt, m, hasAlpha, hasGradientAlpha);
    assert IsKnownFormat(chosen);
    LibraryBackendsAgree(d.formatCC, hasAlpha);
  }

  // ---------------------------------------------------------------- internal packer

  /** n pixels of bpp bytes are present, and bpp covers the bytes a BGRA pixel reads. */
  predicate PixelsAvailable(data: seq<byte>, n: nat, bpp: nat, hasAlpha: bool) {
    bpp >= (if hasAlpha then 4 else 3) && Mul(n, bpp) <= |data|
  }

  lemma PixelInBounds(k: nat, n: nat, bpp: nat)
    requires k < n
    ensures Mul(k, bpp) + bpp <= Mul(n, bpp)
  {
    MulMono(k + 1, n, bpp);
  }

  /** The first n pixels packed as consecutive 4-byte BGRA pixels. */
  function PackedBgra(data: seq<byte>, n: nat, bpp: nat, hasAlpha: bool): (r: seq<byte>)
    requires PixelsAvailable(data, n, bpp, hasAlpha)
    ensures |r| == 4 * n
  {
    if n == 0 then []
    else
      PixelInBounds(n - 1, n, bpp);
      PackedBgra(data, n - 1, bpp, hasAlpha) + BgraPixel(data, n - 1, bpp, hasAlpha)
  }

  /** Output pixel k holds input pixel k: its first three bytes, then its alpha or 255. */
  lemma {:induction false} PackedBgraAt(data: seq<byte>, n: nat, bpp: nat, hasAlpha: bool, k: nat, j: nat)
    requires PixelsAvailable(data, n, bpp, hasAlpha)
    requires k < n && j < 4
    ensures Mul(k, bpp) + bpp <= |data|
    ensures PackedBgra(data, n, bpp, hasAlpha)[4 * k + j] == BgraAt(data, Mul(k, bpp), hasAlpha)[j]
  {
    PixelInBounds(k, n, bpp);
    PixelInBounds(n - 1, n, bpp);
    if k < n - 1 {
      PackedBgraAt(data, n - 1, bpp, hasAlpha, k, j);
    }
  }

  /** The packed base layer is exactly the BGRA layer size of the size model. */
  lemma PackedBgraFillsLayer(img: LoadedImage)
    requires PixelLayoutValid(img)
    ensures PixelsAvailable(img.data, img.width * img.height, img.bpp, img.hasAlpha)
    ensures |PackedBgra(img.data, img.width * img.height, img.bpp, img.hasAlpha)| ==
      LayerSize(img.width, img.height, FORMAT_BGRA)
  {
    MulIsProduct(img.width * img.height, img.bpp);
    LayerSizeTable(img.width, img.height, FORMAT_BGRA);
  }

  /** Four bytes px written over buf at offset o. */
  function Write4(buf: seq<byte>, o: nat, px: seq<byte>): (r: seq<byte>)
    requires o + 4 <= |buf| && |px| == 4
    ensures |r| == |buf|
  {
    buf[..o] + px + buf[o + 4..]
  }

  /** Four stored bytes, with the rest of the buffer unchanged, are one Write4. */
  lemma StoreIsWrite4(before: seq<byte>, after: seq<byte>, o: nat, b0: byte, b1: byte, b2: byte, b3: byte)
    requires |after| == |before| && o + 4 <= |before|
    requires after[o] == b0 && after[o + 1] == b1 && after[o + 2] == b2 && after[o + 3] == b3
    requires forall p :: 0 <= p < |before| && !(o <= p < o + 4) ==> after[p] == before[p]
    ensures after == Write4(before, o, [b0, b1, b2, b3])
  {
    var w := Write4(before, o, [b0, b1, b2, b3]);
    assert w[o] == b0 && w[o + 1] == b1 && w[o + 2] == b2 && w[o + 3] == b3;
    forall p | 0 <= p < |after|
      ensures after[p] == w[p]
    {
    }
  }

  /** Inside the written window, Write4 reads the new pixel. */
  lemma Write4Inside(buf: seq<byte>, o: nat, px: seq<byte>, p: nat)
    requires o + 4 <= |buf| && |px| == 4 && o <= p < o + 4
    ensures Write4(buf, o, px)[p] == px[p - o]
  {
  }

  /** Outside the written window, Write4 keeps the old byte. */
  lemma Write4Outside(buf: seq<byte>, o: nat, px: seq<byte>, p: nat)
    requires o + 4 <= |buf| && |px| == 4 && p < |buf| && !(o <= p < o + 4)
    ensures Write4(buf, o, px)[p] == buf[p]
  {
  }

  /** Store one 4-byte BGRA pixel at offset o (the four out[0..3] stores). */
  method StorePixel(stream: array<byte>, o: nat, b0: byte, b1: byte, b2: byte, b3: byte)
    requires o + 4 <= stream.Length
    modifies stream
    ensures stream[o] == b0 && stream[o + 1] == b1 && stream[o + 2] == b2 && stream[o + 3] == b3
    ensures forall p :: 0 <= p < stream.Length && !(o <= p < o + 4) ==> stream[p] == old(stream[p])
  {
    stream[o] := b0;
    stream[o + 1] := b1;
    stream[o + 2] := b2;
    stream[o + 3] := b3;
  }

  /**
    * The stores of one InternalCompress loop: when every pixel k < n of the
    * output region holds input pixel k in BGRA order and nothing else has
    * changed, the stream is the original with the packed pixels spliced in.
    */
  lemma PixelsMakePacked(orig: seq<byte>, s: seq<byte>, at: nat, data: seq<byte>, n: nat, bpp: nat, hasAlpha: bool)
    requires PixelsAvailable(data, n, bpp, hasAlpha) && at + 4 * n <= |orig| && |s| == |orig|
    requires forall p :: 0 <= p < |s| && !(at <= p < at + 4 * n) ==> s[p] == orig[p]
    requires forall p :: at <= p < at + 4 * n ==> s[p] == PackedBgra(data, n, bpp, hasAlpha)[p - at]
    ensures s == orig[..at] + PackedBgra(data, n, bpp, hasAlpha) + orig[at + 4 * n..]
  {
    var want := orig[..at] + PackedBgra(data, n, bpp, hasAlpha) + orig[at + 4 * n..];
    forall p | 0 <= p < |s|
      ensures s[p] == want[p]
    {
    }
  }

  /** The alpha branch of InternalCompress: copy n 4-byte BGRA pixels to stream at offset at. */
  method CopyBgraPixels(stream: array<byte>, at: nat, data: seq<byte>, n: nat)
    requires |data| == 4 * n && at + 4 * n <= stream.Length
    modifies stream
    ensures PixelsAvailable(data, n, 4, true)
    ensures stream[..] == old(stream[..at]) + PackedBgra(data, n, 4, true) + old(stream[at + 4 * n..])
  {
    MulIsProduct(n, 4);
    ghost var packed := PackedBgra(data, n, 4, true);
    var i, o, end := 0, at, 4 * n;
    ghost var k := 0;
    while i < end
      invariant k <= n && i == 4 * k && o == at + 4 * k
      invariant forall p :: 0 <= p < stream.Length && !(at <= p < o) ==> stream[p] == old(stream[p])
      invariant forall p :: at <= p < o ==> stream[p] == packed[p - at]
      decreases end - i
    {
      PixelStored(data, n, 4, true, k);
      StorePixel(stream, o, data[i], data[i + 1], data[i + 2], data[i + 3]);
      o := o + 4;
      i := i + 4;
      k := k + 1;
    }
    PixelsMakePacked(old(stream[..]), stream[..], at, data, n, 4, true);
  }

  /** The opaque branch of InternalCompress: expand n 3-byte BGR pixels to BGRA with alpha 255. */
  method ExpandBgrPixels(stream: array<byte>, at: nat, data: seq<byte>, n: nat)
    requires |data| == 3 * n && at + 4 * n <= stream.Length
    modifies stream
    ensures PixelsAvailable(data, n, 3, false)
    ensures stream[..] == old(stream[..at]) + PackedBgra(data, n, 3, false) + old(stream[at + 4 * n..])
  {
    MulIsProduct(n, 3);
    ghost var packed := PackedBgra(data, n, 3, false);
    var i, o, end := 0, at, 3 * n;
    ghost var k := 0;
    while i < end
      invariant k <= n && i == 3 * k && o == at + 4 * k
      invariant forall p :: 0 <= p < stream.Length && !(at <= p < o) ==> stream[p] == old(stream[p])
      invariant forall p :: at <= p < o ==> stream[p] == packed[p - at]
      decreases end - i
    {
      PixelStored(data, n, 3, false, k);
      StorePixel(stream, o, data[i], data[i + 1], data[i + 2], 255);
      o := o + 4;
      i := i + 3;
      k := k + 1;
    }
    PixelsMakePacked(old(stream[..]), stream[..], at, data, n, 3, false);
  }

  /** Pixel k's BGRA bytes are the packed bytes 4k..4k+3, read from input bytes bpp*k onward. */
  lemma PixelStored(data: seq<byte>, n: nat, bpp: nat, hasAlpha: bool, k: nat)
    requires PixelsAvailable(data, n, bpp, hasAlpha) && k < n
    ensures bpp * k + bpp <= |data|
    ensures var packed := PackedBgra(data, n, bpp, hasAlpha);
      packed[4 * k] == data[bpp * k] && packed[4 * k + 1] == data[bpp * k + 1] && packed[4 * k + 2] == data[bpp * k + 2]
      && packed[4 * k + 3] == (if hasAlpha then data[bpp * k + 3] else 255)
  {
    MulIsProduct(k, bpp);
    PackedBgraAt(data, n, bpp, hasAlpha, k, 0);
    PackedBgraAt(data, n, bpp, hasAlpha, k, 1);
    PackedBgraAt(data, n, bpp, hasAlpha, k, 2);
    PackedBgraAt(data, n, bpp, hasAlpha, k, 3);
  }

  /**
    * InternalCompress: for BGRA, pack the base layer into stream at offset at
    * and return true; any other format is refused without writing.
    */
  method InternalCompress(stream: array<byte>, at: nat, img: LoadedImage, f: DWORD) returns (ok: bool)
    requires PixelLayoutValid(img)
    requires f == FORMAT_BGRA ==> at + img.width * img.height * 4 <= stream.Length
    modifies stream
    ensures ok <==> f == FORMAT_BGRA
    ensures !ok ==> stream[..] == old(stream[..])
    ensures ok ==> PixelsAvailable(img.data, img.width * img.height, img.bpp, img.hasAlpha)
    ensures ok ==> (stream[..] ==
      old(stream[..at]) + PackedBgra(img.data, img.width * img.height, img.bpp, img.hasAlpha)
      + old(stream[at + img.width * img.height * 4..]))
  {
    if f != FORMAT_BGRA {
      return false;
    }
    var n := img.width * img.height;
    MulIsProduct(n, img.bpp);
    if img.hasAlpha {
      CopyBgraPixels(stream, at, img.data, n);
    } else {
      ExpandBgrPixels(stream, at, img.data, n);
    }
    return true;
  }
}

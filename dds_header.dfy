/**
  * The DDS file header: the "DDS " magic followed by a DirectDraw surface
  * description (DDSURFACEDESC2, 31 little-endian DWORDs). The exporter zeroes
  * the description, sets the fields below, and copies both into the
  * destination buffer, advancing past them.
  */
module DdsHeader {
  import opened Common
  import opened Formats
  import opened Images
  import opened SizeModel

  /** The file magic, "DDS " as a little-endian DWORD. */
  const DDS_HEADER: DWORD := 0x20534444

  // DDSURFACEDESC2.dwFlags
  const DDSD_CAPS: DWORD := 0x1
  const DDSD_HEIGHT: DWORD := 0x2
  const DDSD_WIDTH: DWORD := 0x4
  const DDSD_PIXELFORMAT: DWORD := 0x1000
  const DDSD_MIPMAPCOUNT: DWORD := 0x20000

  // DDPIXELFORMAT.dwFlags
  const DDPF_ALPHAPIXELS: DWORD := 0x1
  const DDPF_FOURCC: DWORD := 0x4
  const DDPF_RGB: DWORD := 0x40
  const DDPF_ALPHAPREMULT: DWORD := 0x8000

  // DDSCAPS2.dwCaps
  const DDSCAPS_COMPLEX: DWORD := 0x8
  const DDSCAPS_TEXTURE: DWORD := 0x1000
  const DDSCAPS_MIPMAP: DWORD := 0x400000

  /** sizeof(DDPIXELFORMAT). */
  const PIXELFORMAT_SIZE: DWORD := 32

  /**
    * The pixel format fields the exporter sets. bitCount is the union slot
    * shared by dwRGBBitCount and dwPrivateFormatBitCount.
    */
  datatype PixelFormat = PixelFormat(
    size: DWORD, flags: DWORD, fourCC: DWORD, bitCount: DWORD,
    rBitMask: DWORD, gBitMask: DWORD, bBitMask: DWORD, alphaBitMask: DWORD)

  /** The surface description fields the exporter sets; every other field is zero. */
  datatype SurfaceDesc = SurfaceDesc(
    size: DWORD, flags: DWORD, height: DWORD, width: DWORD, pitch: DWORD,
    mipMapCount: DWORD, pixelFormat: PixelFormat, caps: DWORD)

  /** The image's width, height and mip count fit the header's DWORD fields. */
  predicate HeaderFits(img: LoadedImage) {
    img.width < DWORD_LIMIT && img.height < DWORD_LIMIT && 1 + |img.mipMaps| < DWORD_LIMIT
  }

  function HasFlag(flags: DWORD, bit: DWORD): bool {
    flags & bit != 0
  }

  /**
    * The pixel format flags: RGB with an alpha mask for raw BGRA, FOURCC
    * otherwise; ALPHAPIXELS added when the image has alpha and ALPHAPREMULT for
    * the premultiplied codes.
    */
  function PixelFormatFlags(raw: bool, hasAlpha: bool, premultiplied: bool): (flags: DWORD)
    ensures raw && !premultiplied ==> flags == DDPF_RGB | DDPF_ALPHAPIXELS
    ensures HasFlag(flags, DDPF_RGB) <==> raw
    ensures HasFlag(flags, DDPF_FOURCC) <==> !raw
    ensures HasFlag(flags, DDPF_ALPHAPIXELS) <==> raw || hasAlpha
    ensures HasFlag(flags, DDPF_ALPHAPREMULT) <==> premultiplied
    // no other bit is ever set
    ensures raw ==> flags & !(DDPF_RGB | DDPF_ALPHAPIXELS | DDPF_ALPHAPREMULT) == 0
    ensures !raw ==> flags & !(DDPF_FOURCC | DDPF_ALPHAPIXELS | DDPF_ALPHAPREMULT) == 0
  {
    var base := if raw then DDPF_ALPHAPIXELS | DDPF_RGB else DDPF_FOURCC;
    var withAlpha := if hasAlpha then base | DDPF_ALPHAPIXELS else base;
    if premultiplied then withAlpha | DDPF_ALPHAPREMULT else withAlpha
  }

  /** The raw BGRA pixel format: 32-bit RGB with byte masks and an alpha mask. */
  function BgraPixelFormat(hasAlpha: bool): (pf: PixelFormat)
    ensures pf.size == PIXELFORMAT_SIZE && pf.fourCC == 0 && pf.bitCount == 32
    ensures pf.rBitMask == 0x00ff0000 && pf.gBitMask == 0x0000ff00
    ensures pf.bBitMask == 0x000000ff && pf.alphaBitMask == 0xff000000
    ensures pf.flags == DDPF_RGB | DDPF_ALPHAPIXELS
  {
    PixelFormat(PIXELFORMAT_SIZE, PixelFormatFlags(true, hasAlpha, false), 0, 32,
      0x00ff0000, 0x0000ff00, 0x000000ff, 0xff000000)
  }

  /**
    * A block-compressed pixel format: FourCC f, or DXT5 with the swizzle tag f
    * moved into the private format slot.
    */
  function FourCCPixelFormat(f: DWORD, hasAlpha: bool): (pf: PixelFormat)
    requires f != FORMAT_BGRA
    ensures pf.size == PIXELFORMAT_SIZE
    ensures pf.rBitMask == 0 && pf.gBitMask == 0 && pf.bBitMask == 0 && pf.alphaBitMask == 0
    ensures pf.flags == PixelFormatFlags(false, hasAlpha, f == FORMAT_DXT2 || f == FORMAT_DXT4)
    ensures HasFlag(pf.flags, DDPF_FOURCC) && !HasFlag(pf.flags, DDPF_RGB)
    ensures HasFlag(pf.flags, DDPF_ALPHAPIXELS) <==> hasAlpha
    ensures HasFlag(pf.flags, DDPF_ALPHAPREMULT) <==> (f == FORMAT_DXT2 || f == FORMAT_DXT4)
    ensures !IsDXT5SwizzledFormat(f) ==> pf.fourCC == f && pf.bitCount == 0
    ensures IsDXT5SwizzledFormat(f) ==> pf.fourCC == FORMAT_DXT5 && pf.bitCount == f
  {
    var flags := PixelFormatFlags(false, hasAlpha, f == FORMAT_DXT2 || f == FORMAT_DXT4);
    if IsDXT5SwizzledFormat(f) then PixelFormat(PIXELFORMAT_SIZE, flags, FORMAT_DXT5, f, 0, 0, 0, 0)
    else PixelFormat(PIXELFORMAT_SIZE, flags, f, 0, 0, 0, 0, 0)
  }

  /** The surface description the exporter fills in for an image stored in format f. */
  function BuildHeader(img: LoadedImage, f: DWORD): (d: SurfaceDesc)
    requires HeaderFits(img)
    ensures d.size == HDR as DWORD && d.pixelFormat.size == PIXELFORMAT_SIZE
    ensures d.flags == DDSD_CAPS | DDSD_WIDTH | DDSD_HEIGHT | DDSD_PIXELFORMAT | DDSD_MIPMAPCOUNT
    ensures d.caps == DDSCAPS_TEXTURE | DDSCAPS_COMPLEX | DDSCAPS_MIPMAP
    ensures d.width == img.width as DWORD && d.height == img.height as DWORD
    ensures d.mipMapCount == (1 + |img.mipMaps|) as DWORD
    // raw BGRA: a 32-bit RGB surface with an alpha mask, whatever the image's alpha
    ensures f == FORMAT_BGRA ==>
      d.pitch == ((img.width * 4) % DWORD_LIMIT) as DWORD && d.pixelFormat == BgraPixelFormat(img.hasAlpha)
    // compressed: a FourCC surface, alpha flag copied from the image
    ensures f != FORMAT_BGRA ==> d.pitch == 0 && d.pixelFormat == FourCCPixelFormat(f, img.hasAlpha)
  {
    var raw := f == FORMAT_BGRA;
    // the DWORD product width*4, wrapped to 32 bits
    var pitch := ((img.width * 4) % DWORD_LIMIT) as DWORD;
    SurfaceDesc(
      HDR as DWORD, DDSD_CAPS | DDSD_WIDTH | DDSD_HEIGHT | DDSD_PIXELFORMAT | DDSD_MIPMAPCOUNT,
      img.height as DWORD, img.width as DWORD, if raw then pitch else 0,
      (1 + |img.mipMaps|) as DWORD,
      if raw then BgraPixelFormat(img.hasAlpha) else FourCCPixelFormat(f, img.hasAlpha),
      DDSCAPS_TEXTURE | DDSCAPS_COMPLEX | DDSCAPS_MIPMAP)
  }

  /**
    * Word slot k of DDSURFACEDESC2 in memory order. Slots the exporter does not
    * set (alpha depth, reserved, surface pointer, colour keys, dwCaps2..4 and
    * the texture stage) hold zero.
    */
  function WordAt(d: SurfaceDesc, k: nat): DWORD {
    var pf := d.pixelFormat;
    match k
    case 0 => d.size
    case 1 => d.flags
    case 2 => d.height
    case 3 => d.width
    case 4 => d.pitch
    case 6 => d.mipMapCount
    case 18 => pf.size
    case 19 => pf.flags
    case 20 => pf.fourCC
    case 21 => pf.bitCount
    case 22 => pf.rBitMask
    case 23 => pf.gBitMask
    case 24 => pf.bBitMask
    case 25 => pf.alphaBitMask
    case 26 => d.caps
    case _ => 0
  }

  /** The 31 DWORDs of DDSURFACEDESC2 in memory order. */
  function Words(d: SurfaceDesc): (ws: seq<DWORD>)
    ensures |ws| * 4 == HDR
  {
    seq(31, k requires 0 <= k < 31 => WordAt(d, k))
  }

  /** Word indices of the fields the exporter sets. */
  predicate IsSetWord(k: nat) {
    k <= 4 || k == 6 || 18 <= k <= 26
  }

  /** A DWORD as four little-endian bytes. */
  function LE32(x: DWORD): (b: seq<byte>)
    ensures |b| == 4
  {
    [(x & 0xFF) as byte, ((x >> 8) & 0xFF) as byte, ((x >> 16) & 0xFF) as byte, (x >> 24) as byte]
  }

  /** Four little-endian bytes as a DWORD. */
  function Decode32(b: seq<byte>): DWORD
    requires |b| == 4
  {
    (b[0] as DWORD) | (b[1] as DWORD << 8) | (b[2] as DWORD << 16) | (b[3] as DWORD << 24)
  }

  /** The little-endian DWORD at byte offset i. */
  function ReadLE32(s: seq<byte>, i: nat): DWORD
    requires i + 4 <= |s|
  {
    Decode32(s[i..i + 4])
  }

  lemma LE32RoundTrip(x: DWORD)
    ensures Decode32(LE32(x)) == x
  {
  }

  /** Consecutive DWORDs laid out little-endian. */
  function Flatten(ws: seq<DWORD>): (b: seq<byte>)
    ensures |b| == 4 * |ws|
  {
    if ws == [] then [] else LE32(ws[0]) + Flatten(ws[1..])
  }

  /** Word k of a flattened sequence reads back as the k-th DWORD. */
  lemma {:induction false} FlattenAt(ws: seq<DWORD>, k: nat)
    requires k < |ws|
    ensures ReadLE32(Flatten(ws), 4 * k) == ws[k]
  {
    var rest := Flatten(ws[1..]);
    assert Flatten(ws) == LE32(ws[0]) + rest;
    if k == 0 {
      LE32RoundTrip(ws[0]);
      assert Flatten(ws)[0..4] == LE32(ws[0]);
    } else {
      FlattenAt(ws[1..], k - 1);
      assert Flatten(ws)[4 * k..4 * k + 4] == rest[4 * (k - 1)..4 * (k - 1) + 4];
    }
  }

  /** The bytes the exporter writes: magic, then the surface description. */
  function HeaderBytes(img: LoadedImage, f: DWORD): (b: seq<byte>)
    requires HeaderFits(img)
    ensures |b| == CompressedSize(img, f, true, false, false)
  {
    LE32(DDS_HEADER) + Flatten(Words(BuildHeader(img, f)))
  }

  /** The DWORD at word k of the surface description that follows the magic. */
  function DescWord(s: seq<byte>, k: nat): DWORD
    requires 4 + 4 * k + 4 <= |s|
  {
    ReadLE32(s, 4 + 4 * k)
  }

  /** The 31 description words that follow the magic. */
  function DescWords(s: seq<byte>): (ws: seq<DWORD>)
    requires |s| >= MAGIC_SIZE + HDR
    ensures |ws| == 31
  {
    seq(31, k requires 0 <= k < 31 => DescWord(s, k))
  }

  /** The set fields, picked out of their word slots. */
  function FromWords(ws: seq<DWORD>): SurfaceDesc
    requires |ws| == 31
  {
    SurfaceDesc(ws[0], ws[1], ws[2], ws[3], ws[4], ws[6],
      PixelFormat(ws[18], ws[19], ws[20], ws[21], ws[22], ws[23], ws[24], ws[25]), ws[26])
  }

  /** What a DDS reader recovers from the front of a file: None unless it holds a whole header with the magic. */
  function ParseHeader(s: seq<byte>): Option<SurfaceDesc> {
    if |s| < MAGIC_SIZE + HDR || ReadLE32(s, 0) != DDS_HEADER then None
    else Some(FromWords(DescWords(s)))
  }

  lemma SliceAfterMagic(t: seq<byte>, i: nat)
    requires i + 4 <= |t|
    ensures (LE32(DDS_HEADER) + t)[4 + i..8 + i] == t[i..i + 4]
  {
  }

  /** Word k after the magic is the k-th DWORD laid out there. */
  lemma DescWordOfEncoding(ws: seq<DWORD>, k: nat)
    requires k < |ws|
    ensures DescWord(LE32(DDS_HEADER) + Flatten(ws), k) == ws[k]
  {
    FlattenAt(ws, k);
    SliceAfterMagic(Flatten(ws), 4 * k);
  }

  /** The magic reads back in front of whatever follows it. */
  lemma MagicReadBack(t: seq<byte>)
    ensures ReadLE32(LE32(DDS_HEADER) + t, 0) == DDS_HEADER
  {
    LE32RoundTrip(DDS_HEADER);
    assert (LE32(DDS_HEADER) + t)[0..4] == LE32(DDS_HEADER);
  }

  /** The description words read back exactly as they were laid out. */
  lemma ReadWords(ws: seq<DWORD>)
    requires |ws| == 31
    ensures DescWords(LE32(DDS_HEADER) + Flatten(ws)) == ws
  {
    var s := LE32(DDS_HEADER) + Flatten(ws);
    forall k | 0 <= k < 31
      ensures DescWords(s)[k] == ws[k]
    {
      DescWordOfEncoding(ws, k);
    }
  }

  /** Parsing magic-plus-words picks the set fields out of their word slots. */
  lemma ParseWords(ws: seq<DWORD>)
    requires |ws| == 31
    ensures ParseHeader(LE32(DDS_HEADER) + Flatten(ws)) == Some(FromWords(ws))
  {
    MagicReadBack(Flatten(ws));
    ReadWords(ws);
  }

  /**
    * Round trip: a reader parsing the written bytes recovers every field the
    * exporter set.
    */
  lemma ParseEncoded(d: SurfaceDesc)
    ensures ParseHeader(LE32(DDS_HEADER) + Flatten(Words(d))) == Some(d)
  {
    WordsRoundTrip(d);
    ParseWords(Words(d));
  }

  /** Picking the set fields out of the laid-out words gives the description back. */
  lemma WordsRoundTrip(d: SurfaceDesc)
    ensures FromWords(Words(d)) == d
  {
  }

  /**
    * The description words the exporter does not set (depth, alpha depth,
    * reserved, surface pointer, colour keys, the extra caps and texture stage)
    * stay zero, as memset left them.
    */
  lemma UnsetWordsAreZero(d: SurfaceDesc)
    ensures forall k :: 0 <= k < 31 && !IsSetWord(k) ==>
      DescWords(LE32(DDS_HEADER) + Flatten(Words(d)))[k] == 0
  {
    var ws := Words(d);
    forall k | 0 <= k < 31 && !IsSetWord(k)
      ensures ws[k] == 0
    {
      assert k == 5 || 7 <= k <= 17 || 27 <= k;
    }
    ReadWords(ws);
  }

  /**
    * The header a reader sees in an exported file: the size is the header-only
    * CompressedSize, and the mip count is one more than the length of the chain.
    */
  lemma HeaderReadBack(img: LoadedImage, f: DWORD)
    requires HeaderFits(img)
    ensures |HeaderBytes(img, f)| == MAGIC_SIZE + HDR
    ensures ParseHeader(HeaderBytes(img, f)) == Some(BuildHeader(img, f))
    ensures ParseHeader(HeaderBytes(img, f)).value.mipMapCount == (1 + |img.mipMaps|) as DWORD
  {
    ParseEncoded(BuildHeader(img, f));
  }

  /** memcpy: copy bytes into stream at offset at and return the offset just past them. */
  method CopyInto(stream: array<byte>, at: nat, bytes: seq<byte>) returns (next: nat)
    requires at + |bytes| <= stream.Length
    modifies stream
    ensures next == at + |bytes|
    ensures stream[..] == old(stream[..at]) + bytes + old(stream[next..])
  {
    var i := 0;
    while i < |bytes|
      invariant 0 <= i <= |bytes|
      invariant forall j :: 0 <= j < stream.Length && !(at <= j < at + i) ==> stream[j] == old(stream[j])
      invariant forall j :: 0 <= j < i ==> stream[at + j] == bytes[j]
    {
      stream[at + i] := bytes[i];
      i := i + 1;
    }
    next := at + |bytes|;
    assert stream[..] == old(stream[..at]) + bytes + old(stream[next..]);
  }

  /**
    * DDSHeader: write the magic and the surface description for img into
    * stream at offset at, and return the offset where the texture data begins.
    */
  method DDSHeader(stream: array<byte>, at: nat, img: LoadedImage, f: DWORD) returns (next: nat)
    requires HeaderFits(img)
    requires at + MAGIC_SIZE + HDR <= stream.Length
    modifies stream
    ensures next == at + CompressedSize(img, f, true, false, false)
    ensures stream[..] == old(stream[..at]) + HeaderBytes(img, f) + old(stream[next..])
  {
    var magic := LE32(DDS_HEADER);
    var afterMagic := CopyInto(stream, at, magic);
    ghost var mid := stream[..];
    var desc := Flatten(Words(BuildHeader(img, f)));
    next := CopyInto(stream, afterMagic, desc);
    assert mid[..afterMagic] == old(stream[..at]) + magic;
    assert mid[next..] == old(stream[next..]);
    assert stream[..] == old(stream[..at]) + (magic + desc) + old(stream[next..]);
  }
}

/** The format catalog of the Valve texture container: pixel-format
    identifiers with their enumerator values, bits per pixel and display
    names, and the texture flag bits. */
module VtfFormat {
  import opened Bytes

  /** `VTFImageFormat`. `NONE` is the enumerator -1; `Unlisted` carries any
      other id found in a header, which the catalog does not know. */
  datatype ImageFormat =
    | NONE
    | RGBA8888 | ABGR8888 | RGB888 | BGR888 | RGB565 | I8 | IA88 | P8 | A8
    | RGB888_BLUESCREEN | BGR888_BLUESCREEN | ARGB8888 | BGRA8888
    | DXT1 | DXT3 | DXT5 | BGRX8888 | BGR565 | BGRX5551 | BGRA4444
    | DXT1_ONEBITALPHA | BGRA5551 | UV88 | UVWQ8888
    | RGBA16161616F | RGBA16161616 | UVLX8888
    | Unlisted(code: int)

  /** An `Unlisted` id never collides with an enumerator. */
  predicate ValidFormat(f: ImageFormat) {
    f.Unlisted? ==> !(-1 <= f.code <= 26)
  }

  /** The enumerators in declaration order, RGBA8888 = 0 first. */
  const Enumerators: seq<ImageFormat> := [
    RGBA8888, ABGR8888, RGB888, BGR888, RGB565, I8, IA88, P8, A8,
    RGB888_BLUESCREEN, BGR888_BLUESCREEN, ARGB8888, BGRA8888,
    DXT1, DXT3, DXT5, BGRX8888, BGR565, BGRX5551, BGRA4444,
    DXT1_ONEBITALPHA, BGRA5551, UV88, UVWQ8888,
    RGBA16161616F, RGBA16161616, UVLX8888]

  /** The integer value of each enumerator. */
  function CodeOf(f: ImageFormat): int {
    match f
    case NONE => -1
    case RGBA8888 => 0
    case ABGR8888 => 1
    case RGB888 => 2
    case BGR888 => 3
    case RGB565 => 4
    case I8 => 5
    case IA88 => 6
    case P8 => 7
    case A8 => 8
    case RGB888_BLUESCREEN => 9
    case BGR888_BLUESCREEN => 10
    case ARGB8888 => 11
    case BGRA8888 => 12
    case DXT1 => 13
    case DXT3 => 14
    case DXT5 => 15
    case BGRX8888 => 16
    case BGR565 => 17
    case BGRX5551 => 18
    case BGRA4444 => 19
    case DXT1_ONEBITALPHA => 20
    case BGRA5551 => 21
    case UV88 => 22
    case UVWQ8888 => 23
    case RGBA16161616F => 24
    case RGBA16161616 => 25
    case UVLX8888 => 26
    case Unlisted(c) => c
  }

  /** The format an integer id denotes; the declaration order of the
      enumerator list agrees with the explicit enumerator values. */
  function FormatOfCode(c: int): (f: ImageFormat)
    ensures ValidFormat(f)
    ensures CodeOf(f) == c
  {
    EnumeratorsInOrder();
    if c == -1 then NONE
    else if 0 <= c < |Enumerators| then Enumerators[c]
    else Unlisted(c)
  }

  /** Enumerator `i` of the list has the value `i`. */
  lemma EnumeratorsInOrder()
    ensures forall i :: 0 <= i < |Enumerators| ==> CodeOf(Enumerators[i]) == i
  {
    forall i | 0 <= i < |Enumerators|
      ensures CodeOf(Enumerators[i]) == i
    {
      if i < 14 {
        LowEnumerators(i);
      } else {
        HighEnumerators(i);
      }
    }
  }

  lemma LowEnumerators(i: int)
    requires 0 <= i < 14
    ensures CodeOf(Enumerators[i]) == i
  {
    assert Enumerators[..14] == [
      RGBA8888, ABGR8888, RGB888, BGR888, RGB565, I8, IA88, P8, A8,
      RGB888_BLUESCREEN, BGR888_BLUESCREEN, ARGB8888, BGRA8888, DXT1];
  }

  lemma HighEnumerators(i: int)
    requires 14 <= i < 27
    ensures CodeOf(Enumerators[i]) == i
  {
    assert Enumerators[14..] == [
      DXT3, DXT5, BGRX8888, BGR565, BGRX5551, BGRA4444,
      DXT1_ONEBITALPHA, BGRA5551, UV88, UVWQ8888,
      RGBA16161616F, RGBA16161616, UVLX8888];
  }

  /** Distinct valid formats have distinct ids, so `FormatOfCode` inverts `CodeOf`. */
  lemma FormatOfCodeOf(f: ImageFormat)
    requires ValidFormat(f)
    ensures FormatOfCode(CodeOf(f)) == f
  {
  }

  /** The enumerator values of the block-compressed formats. */
  lemma EnumeratorValues()
    ensures FormatOfCode(-1) == NONE && FormatOfCode(0) == RGBA8888
    ensures FormatOfCode(13) == DXT1 && FormatOfCode(14) == DXT3
    ensures FormatOfCode(15) == DXT5 && FormatOfCode(20) == DXT1_ONEBITALPHA
    ensures FormatOfCode(26) == UVLX8888
  {
  }

  /** `static_cast<VTFImageFormat>` of an unsigned 32-bit header word: the
      word is reinterpreted as a signed 32-bit id, so 0xFFFFFFFF is NONE. */
  function FormatOfWord(w: nat): (f: ImageFormat)
    requires w < 0x1_0000_0000
    ensures ValidFormat(f)
    ensures w == 0xFFFF_FFFF <==> f == NONE
    ensures w < 27 ==> f == Enumerators[w]
  {
    FormatOfCode(if w >= 0x8000_0000 then w - 0x1_0000_0000 else w)
  }

  /** `GetImageFormatBPP`. Block-compressed formats report their nominal
      average; NONE and unlisted ids report 0. */
  function Bpp(f: ImageFormat): (r: nat)
    ensures r == 0 <==> f == NONE || f.Unlisted?
    ensures r in {4, 8, 16, 24, 32, 64} || r == 0
  {
    match f
    case RGBA8888 | ABGR8888 | ARGB8888 | BGRA8888 | BGRX8888 | UVWQ8888 | UVLX8888 => 32
    case RGB888 | BGR888 | RGB888_BLUESCREEN | BGR888_BLUESCREEN => 24
    case RGB565 | IA88 | BGR565 | BGRX5551 | BGRA4444 | BGRA5551 | UV88 => 16
    case I8 | P8 | A8 => 8
    case DXT1 | DXT1_ONEBITALPHA => 4
    case DXT3 | DXT5 => 8
    case RGBA16161616F | RGBA16161616 => 64
    case _ => 0
  }

  /** The channel widths, in bits, that an uncompressed format's name
      spells out: `RGB565` is 5, 6 and 5 bits, `RGBA16161616` four 16-bit
      channels, `X` an unused channel that still takes its bits. Block
      formats and unknown ids have none. */
  function ChannelWidths(f: ImageFormat): seq<nat> {
    match f
    case RGBA8888 | ABGR8888 | ARGB8888 | BGRA8888 | BGRX8888 | UVWQ8888 | UVLX8888 => [8, 8, 8, 8]
    case RGB888 | BGR888 | RGB888_BLUESCREEN | BGR888_BLUESCREEN => [8, 8, 8]
    case RGB565 | BGR565 => [5, 6, 5]
    case BGRX5551 | BGRA5551 => [5, 5, 5, 1]
    case BGRA4444 => [4, 4, 4, 4]
    case IA88 | UV88 => [8, 8]
    case I8 | P8 | A8 => [8]
    case RGBA16161616F | RGBA16161616 => [16, 16, 16, 16]
    case _ => []
  }

  function TotalBits(ws: seq<nat>): nat {
    if |ws| == 0 then 0 else ws[0] + TotalBits(ws[1..])
  }

  /** A block format: DXT1 and DXT1_ONEBITALPHA pack a 4x4 block into 8
      bytes, DXT3 and DXT5 into 16. */
  function BlockBytesOf(f: ImageFormat): nat {
    match f
    case DXT1 | DXT1_ONEBITALPHA => 8
    case DXT3 | DXT5 => 16
    case _ => 0
  }

  /** The bit count of a format is the sum of its channel widths, and for a
      block format the block's bits spread over its 16 texels; every other
      id reports 0. */
  lemma BppFromLayout(f: ImageFormat)
    ensures |ChannelWidths(f)| > 0 ==> Bpp(f) == TotalBits(ChannelWidths(f))
    ensures BlockBytesOf(f) > 0 ==> Bpp(f) * 16 == BlockBytesOf(f) * 8
    ensures |ChannelWidths(f)| == 0 && BlockBytesOf(f) == 0 ==> Bpp(f) == 0
  {
    if |ChannelWidths(f)| > 0 {
      TotalBitsShort(ChannelWidths(f));
    }
  }

  /** The total of up to four channel widths, written out. */
  lemma {:induction false} TotalBitsShort(ws: seq<nat>)
    requires 1 <= |ws| <= 4
    ensures TotalBits(ws) == ws[0] + (if |ws| > 1 then ws[1] else 0) +
      (if |ws| > 2 then ws[2] else 0) + (if |ws| > 3 then ws[3] else 0)
  {
    if |ws| > 1 {
      TotalBitsShort(ws[1..]);
    } else {
      assert TotalBits(ws[1..]) == 0;
    }
  }

  /** `GetImageFormatName`: the enumerator's own spelling. The two
      BLUESCREEN variants have no case of their own and read "UNKNOWN". */
  function Name(f: ImageFormat): string {
    match f
    case RGBA8888 => "RGBA8888"
    case ABGR8888 => "ABGR8888"
    case RGB888 => "RGB888"
    case BGR888 => "BGR888"
    case RGB565 => "RGB565"
    case I8 => "I8"
    case IA88 => "IA88"
    case P8 => "P8"
    case A8 => "A8"
    case ARGB8888 => "ARGB8888"
    case BGRA8888 => "BGRA8888"
    case DXT1 => "DXT1"
    case DXT3 => "DXT3"
    case DXT5 => "DXT5"
    case BGRX8888 => "BGRX8888"
    case BGR565 => "BGR565"
    case BGRX5551 => "BGRX5551"
    case BGRA4444 => "BGRA4444"
    case DXT1_ONEBITALPHA => "DXT1_ONEBITALPHA"
    case BGRA5551 => "BGRA5551"
    case UV88 => "UV88"
    case UVWQ8888 => "UVWQ8888"
    case RGBA16161616F => "RGBA16161616F"
    case RGBA16161616 => "RGBA16161616"
    case UVLX8888 => "UVLX8888"
    case _ => "UNKNOWN"
  }

  predicate Named(f: ImageFormat) {
    f != NONE && !f.Unlisted? && f != RGB888_BLUESCREEN && f != BGR888_BLUESCREEN
  }

  /** The display name is "UNKNOWN" exactly for the ids outside the 25
      named formats: NONE, the two BLUESCREEN variants and unlisted ids. */
  lemma NameUnknown(f: ImageFormat)
    ensures Name(f) == "UNKNOWN" <==> !Named(f)
  {
  }

  /** Every named format has a positive bit count; the BLUESCREEN variants
      have one too although their name is "UNKNOWN". */
  lemma NamedFormatsHaveBpp(f: ImageFormat)
    ensures Named(f) ==> Bpp(f) > 0
    ensures f == RGB888_BLUESCREEN || f == BGR888_BLUESCREEN ==> Bpp(f) == 24 && !Named(f)
  {
  }

  // ---------------------------------------------------------------------
  // Texture flags (`VTFFlags`)

  const POINTSAMPLE: nat := 0x0000_0001
  const TRILINEAR: nat := 0x0000_0002
  const CLAMPS: nat := 0x0000_0004
  const CLAMPT: nat := 0x0000_0008
  const ANISOTROPIC: nat := 0x0000_0010
  const HINT_DXT5: nat := 0x0000_0020
  const SRGB: nat := 0x0000_0040
  const NORMAL: nat := 0x0000_0080
  const NOMIP: nat := 0x0000_0100
  const NOLOD: nat := 0x0000_0200
  const MINMIP: nat := 0x0000_0400
  const PROCEDURAL: nat := 0x0000_0800
  const ONEBITALPHA: nat := 0x0000_1000
  const EIGHTBITALPHA: nat := 0x0000_2000
  const ENVMAP: nat := 0x0000_4000
  const RENDERTARGET: nat := 0x0000_8000
  const DEPTHRENDERTARGET: nat := 0x0001_0000
  const NODEBUGOVERRIDE: nat := 0x0002_0000
  const SINGLECOPY: nat := 0x0004_0000
  const UNUSED0: nat := 0x0008_0000
  const NODEPTHBUFFER: nat := 0x0080_0000
  const CLAMPU: nat := 0x0200_0000
  const VERTEXTEXTURE: nat := 0x0400_0000
  const SSBUMP: nat := 0x0800_0000
  const BORDER: nat := 0x2000_0000

  const AllFlags: seq<nat> := [
    POINTSAMPLE, TRILINEAR, CLAMPS, CLAMPT, ANISOTROPIC, HINT_DXT5, SRGB,
    NORMAL, NOMIP, NOLOD, MINMIP, PROCEDURAL, ONEBITALPHA, EIGHTBITALPHA,
    ENVMAP, RENDERTARGET, DEPTHRENDERTARGET, NODEBUGOVERRIDE, SINGLECOPY,
    UNUSED0, NODEPTHBUFFER, CLAMPU, VERTEXTEXTURE, SSBUMP, BORDER]

  /** The bit each flag occupies, in the order of `AllFlags`. */
  const FlagBitIndex: seq<nat> := [
    0, 1, 2, 3, 4, 5, 6, 7, 8, 9, 10, 11, 12, 13, 14, 15, 16, 17, 18, 19,
    23, 25, 26, 27, 29]

  /** Bit `k` of a flag word, `(flags & (1 << k)) != 0`. */
  predicate HasBit(flags: nat, k: nat) {
    Bits(flags, k, 1) == 1
  }

  /** Every flag is a single bit, and the bits rise strictly along the list,
      so no two flags share a bit. */
  lemma FlagsAreDistinctBits()
    ensures |AllFlags| == |FlagBitIndex|
    ensures forall i :: 0 <= i < |AllFlags| ==> AllFlags[i] == Pow2(FlagBitIndex[i])
    ensures forall i :: 0 <= i < |FlagBitIndex| - 1 ==> FlagBitIndex[i] < FlagBitIndex[i + 1]
  {
    LowFlagBits();
    HighFlagBits();
  }

  /** The first thirteen flags are bits 0 to 12. */
  lemma LowFlagBits()
    ensures forall i :: 0 <= i < 13 ==> AllFlags[i] == Pow2(FlagBitIndex[i])
  {
    assert AllFlags[..13] == [
      Pow2(0), Pow2(1), Pow2(2), Pow2(3), Pow2(4), Pow2(5), Pow2(6), Pow2(7),
      Pow2(8), Pow2(9), Pow2(10), Pow2(11), Pow2(12)];
  }

  /** The remaining flags are bits 13 to 19, 23, 25 to 27 and 29. */
  lemma HighFlagBits()
    ensures forall i :: 13 <= i < 25 ==> AllFlags[i] == Pow2(FlagBitIndex[i])
  {
    // Bits 17 and up, as multiples of bit 16.
    assert Pow2(16) == 0x1_0000;
    Pow2Add(16, 1);
    Pow2Add(16, 2);
    Pow2Add(16, 3);
    Pow2Add(16, 7);
    Pow2Add(16, 9);
    Pow2Add(16, 10);
    Pow2Add(16, 11);
    Pow2Add(16, 13);
    assert AllFlags[13..] == [
      Pow2(13), Pow2(14), Pow2(15), Pow2(16), 2 * Pow2(16), 4 * Pow2(16), 8 * Pow2(16),
      128 * Pow2(16), 512 * Pow2(16), 1024 * Pow2(16), 2048 * Pow2(16), 8192 * Pow2(16)];
  }
}

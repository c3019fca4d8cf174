/** The two S3TC block formats the container decoder understands, as the
    code decodes them: BC1 (DXT1, 8-byte blocks, optional 1-bit alpha) and
    BC3 (DXT5, 16-byte blocks with an interpolated alpha block), following
    section "S3TC Compressed Texture Image Formats" of the Khronos Data
    Format Specification v1.3 except that RGB565 endpoints are widened by a
    plain left shift, without replicating the top bits. */
module S3tc {
  import opened Bytes

  datatype Rgba = Rgba(r: byte, g: byte, b: byte, a: byte)

  datatype Rgb = Rgb(r: byte, g: byte, b: byte)

  /** Byte `c` of a pixel in RGBA8888 order. */
  function Channel(p: Rgba, c: nat): byte
    requires c < 4
  {
    if c == 0 then p.r else if c == 1 then p.g else if c == 2 then p.b else p.a
  }

  function Opaque(c: Rgb): Rgba {
    Rgba(c.r, c.g, c.b, 255)
  }

  /** The 16-bit little-endian word at `i`: `block[i] | (block[i + 1] << 8)`. */
  function Word16(block: seq<byte>, i: nat): (r: nat)
    requires i + 2 <= |block|
    ensures r < 0x1_0000
  {
    DecodeLE(block[i..i + 2])
  }

  /** An RGB565 endpoint widened to 8 bits a channel:
      red `((c >> 11) & 0x1F) << 3`, green `((c >> 5) & 0x3F) << 2`,
      blue `(c & 0x1F) << 3`. The low bits stay zero, so nothing of the
      endpoint is lost and nothing is invented. */
  function Expand565(c: nat): (e: Rgb)
    requires c < 0x1_0000
    ensures e.r % 8 == 0 && e.g % 4 == 0 && e.b % 8 == 0
    ensures Pack565(e) == c
  {
    var r, g, b := c / 2048, (c / 32) % 64, c % 32;
    assert c == r * 2048 + g * 32 + b;
    Rgb(r * 8, g * 4, b * 8)
  }

  /** Narrowing back to RGB565, dropping the low bits of each channel. */
  function Pack565(e: Rgb): nat {
    (e.r / 8) * 2048 + (e.g / 4) * 32 + e.b / 8
  }

  /** Two different endpoint words never widen to the same colour. */
  lemma Expand565Injective(c0: nat, c1: nat)
    requires c0 < 0x1_0000 && c1 < 0x1_0000
    ensures Expand565(c0) == Expand565(c1) <==> c0 == c1
  {
  }

  /** The 2:1 blend `(2a + b) / 3`, channel by channel. */
  function Mix21(p: Rgb, q: Rgb): Rgb {
    Rgb((2 * p.r + q.r) / 3, (2 * p.g + q.g) / 3, (2 * p.b + q.b) / 3)
  }

  /** The 1:2 blend `(a + 2b) / 3`, channel by channel. */
  function Mix12(p: Rgb, q: Rgb): Rgb {
    Rgb((p.r + 2 * q.r) / 3, (p.g + 2 * q.g) / 3, (p.b + 2 * q.b) / 3)
  }

  /** The mean `(a + b) / 2`, channel by channel. */
  function MixMean(p: Rgb, q: Rgb): Rgb {
    Rgb((p.r + q.r) / 2, (p.g + q.g) / 2, (p.b + q.b) / 2)
  }

  predicate Between(v: int, a: int, b: int) {
    (a <= v <= b) || (b <= v <= a)
  }

  predicate RgbBetween(v: Rgb, p: Rgb, q: Rgb) {
    Between(v.r, p.r, q.r) && Between(v.g, p.g, q.g) && Between(v.b, p.b, q.b)
  }

  function ColourOf(p: Rgba): Rgb {
    Rgb(p.r, p.g, p.b)
  }

  /** The BC1 palette of a block with endpoint words `c0`, `c1`. With
      `c0 > c1` it holds four opaque colours: both endpoints and their 2:1
      and 1:2 blends. Otherwise the third is the mean of the endpoints and
      the fourth is transparent black, which is how BC1 encodes 1-bit alpha. */
  function Bc1Palette(c0: nat, c1: nat): (p: seq<Rgba>)
    requires c0 < 0x1_0000 && c1 < 0x1_0000
    ensures |p| == 4
  {
    var e0, e1 := Expand565(c0), Expand565(c1);
    if c0 > c1 then
      [Opaque(e0), Opaque(e1), Opaque(Mix21(e0, e1)), Opaque(Mix12(e0, e1))]
    else
      [Opaque(e0), Opaque(e1), Opaque(MixMean(e0, e1)), Rgba(0, 0, 0, 0)]
  }

  /** The endpoints come first; entry 3 is transparent black exactly in
      three-colour mode (`c0 <= c1`), and every other entry is opaque. */
  lemma Bc1PaletteAlpha(c0: nat, c1: nat)
    requires c0 < 0x1_0000 && c1 < 0x1_0000
    ensures var p := Bc1Palette(c0, c1);
      p[0] == Opaque(Expand565(c0)) && p[1] == Opaque(Expand565(c1)) &&
      (forall i :: 0 <= i < 4 ==> (p[i].a == 0 <==> i == 3 && c0 <= c1)) &&
      (forall i :: 0 <= i < 4 ==> p[i].a == 0 || p[i].a == 255) &&
      (c0 <= c1 ==> p[3] == Rgba(0, 0, 0, 0))
  {
  }

  /** The 2:1 and 1:2 blends and the mean of two levels lie between them. */
  lemma BlendsBetween(a: int, b: int)
    ensures Between((2 * a + b) / 3, a, b)
    ensures Between((a + 2 * b) / 3, a, b)
    ensures Between((a + b) / 2, a, b)
  {
  }

  /** Channel-wise blends of two colours lie between them. */
  lemma MixesBetween(p: Rgb, q: Rgb)
    ensures RgbBetween(p, p, q) && RgbBetween(q, p, q)
    ensures RgbBetween(Mix21(p, q), p, q) && RgbBetween(Mix12(p, q), p, q)
    ensures RgbBetween(MixMean(p, q), p, q)
  {
    BlendsBetween(p.r, q.r);
    BlendsBetween(p.g, q.g);
    BlendsBetween(p.b, q.b);
  }

  /** Every entry but the transparent one of three-colour mode
      interpolates the endpoints channel by channel. */
  lemma Bc1PaletteBetween(c0: nat, c1: nat, i: nat)
    requires c0 < 0x1_0000 && c1 < 0x1_0000 && i < 4
    requires !(i == 3 && c0 <= c1)
    ensures RgbBetween(ColourOf(Bc1Palette(c0, c1)[i]), Expand565(c0), Expand565(c1))
  {
    MixesBetween(Expand565(c0), Expand565(c1));
  }

  /** The colour half of a BC3 block: always the four-colour palette,
      whatever the order of the endpoints. */
  function Bc3ColourPalette(c0: nat, c1: nat): (p: seq<Rgb>)
    requires c0 < 0x1_0000 && c1 < 0x1_0000
    ensures |p| == 4
  {
    var e0, e1 := Expand565(c0), Expand565(c1);
    [e0, e1, Mix21(e0, e1), Mix12(e0, e1)]
  }

  /** Every BC3 colour interpolates the endpoints. */
  lemma Bc3ColourBetween(c0: nat, c1: nat, i: nat)
    requires c0 < 0x1_0000 && c1 < 0x1_0000 && i < 4
    ensures RgbBetween(Bc3ColourPalette(c0, c1)[i], Expand565(c0), Expand565(c1))
  {
    MixesBetween(Expand565(c0), Expand565(c1));
  }

  /** With `c0 > c1` the BC3 colours are those of the BC1 palette; with
      `c0 <= c1` BC3 keeps the 2:1 and 1:2 blends where BC1 switches to
      the mean and transparent black. */
  lemma Bc3ColourPaletteIsFourColour(c0: nat, c1: nat)
    requires c0 < 0x1_0000 && c1 < 0x1_0000
    ensures c0 > c1 ==> forall i :: 0 <= i < 4 ==>
      Bc3ColourPalette(c0, c1)[i] == ColourOf(Bc1Palette(c0, c1)[i])
    ensures c0 <= c1 ==> Bc3ColourPalette(c0, c1)[3] == Mix12(Expand565(c0), Expand565(c1))
  {
  }

  /** The BC3 alpha palette, written out entry by entry. With `a0 > a1`
      there are six interpolated levels; otherwise four, then 0 and 255. */
  function AlphaPalette(a0: byte, a1: byte): (p: seq<byte>)
    ensures |p| == 8
  {
    if a0 > a1 then
      [a0, a1, (6 * a0 + a1) / 7, (5 * a0 + 2 * a1) / 7, (4 * a0 + 3 * a1) / 7,
       (3 * a0 + 4 * a1) / 7, (2 * a0 + 5 * a1) / 7, (a0 + 6 * a1) / 7]
    else
      [a0, a1, (4 * a0 + a1) / 5, (3 * a0 + 2 * a1) / 5, (2 * a0 + 3 * a1) / 5,
       (a0 + 4 * a1) / 5, 0, 255]
  }

  /** Level `i` of the decoder's interpolation loop over `n` steps:
      `((n + 1 - i) * a0 + (i - 1) * a1) / n`. */
  function Blend(n: nat, i: int, a0: byte, a1: byte): int
    requires n > 0
  {
    ((n + 1 - i) * a0 + (i - 1) * a1) / n
  }

  /** With `a0 > a1` the table is the decoder's loop
      `alphas[i] = ((8 - i) * a0 + (i - 1) * a1) / 7` for `i` in 2..7. */
  lemma AlphaPaletteSixLevels(a0: byte, a1: byte)
    requires a0 > a1
    ensures var p := AlphaPalette(a0, a1);
      p[0] == a0 && p[1] == a1 &&
      forall i :: 2 <= i < 8 ==> p[i] == Blend(7, i, a0, a1)
  {
    var p := AlphaPalette(a0, a1);
    forall i | 2 <= i < 8
      ensures p[i] == Blend(7, i, a0, a1)
    {
      if i == 2 {
        assert Blend(7, 2, a0, a1) == p[2];
      } else if i == 3 {
        assert Blend(7, 3, a0, a1) == p[3];
      } else if i == 4 {
        assert Blend(7, 4, a0, a1) == p[4];
      } else if i == 5 {
        assert Blend(7, 5, a0, a1) == p[5];
      } else if i == 6 {
        assert Blend(7, 6, a0, a1) == p[6];
      } else {
        assert Blend(7, 7, a0, a1) == p[7];
      }
    }
  }

  /** With `a0 <= a1` the table is the loop
      `alphas[i] = ((6 - i) * a0 + (i - 1) * a1) / 5` for `i` in 2..5,
      followed by the fixed levels 0 and 255. */
  lemma AlphaPaletteFourLevels(a0: byte, a1: byte)
    requires a0 <= a1
    ensures var p := AlphaPalette(a0, a1);
      p[0] == a0 && p[1] == a1 && p[6] == 0 && p[7] == 255 &&
      forall i :: 2 <= i < 6 ==> p[i] == Blend(5, i, a0, a1)
  {
    var p := AlphaPalette(a0, a1);
    forall i | 2 <= i < 6
      ensures p[i] == Blend(5, i, a0, a1)
    {
      if i == 2 {
        assert Blend(5, 2, a0, a1) == p[2];
      } else if i == 3 {
        assert Blend(5, 3, a0, a1) == p[3];
      } else if i == 4 {
        assert Blend(5, 4, a0, a1) == p[4];
      } else {
        assert Blend(5, 5, a0, a1) == p[5];
      }
    }
  }

  /** Every interpolated level lies between the endpoints. */
  lemma AlphaPaletteBetween(a0: byte, a1: byte, i: nat)
    requires i < (if a0 > a1 then 8 else 6)
    ensures Between(AlphaPalette(a0, a1)[i], a0, a1)
  {
  }

  // ---------------------------------------------------------------------
  // One block: 16 texels, row-major, texel k = 4 * py + px

  datatype Family = Bc1 | Bc3

  /** Bytes per 4x4 block. */
  function Stride(fam: Family): nat {
    if fam == Bc1 then 8 else 16
  }

  /** The 2-bit colour index of texel `k`: bits `2k` of the 32-bit
      little-endian word at `i`. */
  function ColourIndex(block: seq<byte>, i: nat, k: nat): (r: nat)
    requires i + 4 <= |block| && k < 16
    ensures r < 4
  {
    assert Pow2(2) == 4;
    Bits(DecodeLE(block[i..i + 4]), 2 * k, 2)
  }

  /** The 3-bit alpha index of texel `k`: bits `3k` of the 48-bit
      little-endian field in bytes 2 to 7. */
  function AlphaIndex(block: seq<byte>, k: nat): (r: nat)
    requires 8 <= |block| && k < 16
    ensures r < 8
  {
    assert Pow2(3) == 8;
    Bits(DecodeLE(block[2..8]), 3 * k, 3)
  }

  /** Texel `k` of a BC1 block. */
  function Bc1Texel(block: seq<byte>, k: nat): Rgba
    requires |block| >= 8 && k < 16
  {
    Bc1Palette(Word16(block, 0), Word16(block, 2))[ColourIndex(block, 4, k)]
  }

  /** Texel `k` of a BC3 block: colour from the trailing 8 bytes, alpha
      from the leading 8. */
  function Bc3Texel(block: seq<byte>, k: nat): Rgba
    requires |block| >= 16 && k < 16
  {
    var c := Bc3ColourPalette(Word16(block, 8), Word16(block, 10))[ColourIndex(block, 12, k)];
    Rgba(c.r, c.g, c.b, AlphaPalette(block[0], block[1])[AlphaIndex(block, k)])
  }

  function BlockTexel(fam: Family, block: seq<byte>, k: nat): Rgba
    requires |block| >= Stride(fam) && k < 16
  {
    if fam == Bc1 then Bc1Texel(block, k) else Bc3Texel(block, k)
  }

  /** What a decoder computes once per block before visiting its texels:
      the palettes and the packed index words. */
  datatype BlockPalette =
    | Bc1Palettes(colours: seq<Rgba>, indices: nat)
    | Bc3Palettes(colours3: seq<Rgb>, indices: nat, alphas: seq<byte>, alphaBits: nat)

  function PaletteOf(fam: Family, block: seq<byte>): (pal: BlockPalette)
    requires |block| >= Stride(fam)
    ensures fam == Bc1 <==> pal.Bc1Palettes?
  {
    if fam == Bc1 then
      Bc1Palettes(Bc1Palette(Word16(block, 0), Word16(block, 2)), DecodeLE(block[4..8]))
    else
      Bc3Palettes(Bc3ColourPalette(Word16(block, 8), Word16(block, 10)), DecodeLE(block[12..16]),
                  AlphaPalette(block[0], block[1]), DecodeLE(block[2..8]))
  }

  /** Texel `t` looked up in the per-block palettes, as the decoders'
      inner loop does: two index bits per texel for colour, three for alpha. */
  function PaletteTexel(pal: BlockPalette, t: nat): Rgba
    requires t < 16
    requires pal.Bc1Palettes? ==> |pal.colours| == 4
    requires pal.Bc3Palettes? ==> |pal.colours3| == 4 && |pal.alphas| == 8
  {
    assert Pow2(2) == 4 && Pow2(3) == 8;
    match pal
    case Bc1Palettes(colours, indices) => colours[Bits(indices, 2 * t, 2)]
    case Bc3Palettes(colours3, indices, alphas, alphaBits) =>
      var c := colours3[Bits(indices, 2 * t, 2)];
      Rgba(c.r, c.g, c.b, alphas[Bits(alphaBits, 3 * t, 3)])
  }

  /** Building the palettes once per block and indexing them per texel
      gives the texel the block defines. */
  lemma PaletteTexelIsBlockTexel(fam: Family, block: seq<byte>, t: nat)
    requires |block| >= Stride(fam) && t < 16
    ensures PaletteTexel(PaletteOf(fam, block), t) == BlockTexel(fam, block, t)
  {
  }

  /** A BC1 texel is transparent only in three-colour mode, with index 3. */
  lemma Bc1Transparency(block: seq<byte>, k: nat)
    requires |block| >= 8 && k < 16
    ensures Bc1Texel(block, k).a == 0 <==>
      Word16(block, 0) <= Word16(block, 2) && ColourIndex(block, 4, k) == 3
    ensures Bc1Texel(block, k).a != 0 ==> Bc1Texel(block, k).a == 255
  {
    Bc1PaletteAlpha(Word16(block, 0), Word16(block, 2));
  }

  /** A BC3 block with `c0 > c1` has the colours a BC1 block with the same
      colour half would have; its alpha comes from the alpha half only. */
  lemma Bc3ColourAgreesWithBc1(block: seq<byte>, k: nat)
    requires |block| >= 16 && k < 16
    requires Word16(block, 8) > Word16(block, 10)
    ensures var t := Bc1Texel(block[8..16], k);
      Bc3Texel(block, k) == Rgba(t.r, t.g, t.b, AlphaPalette(block[0], block[1])[AlphaIndex(block, k)])
  {
    ColourHalfFields(block, k);
    Bc3ColourPaletteIsFourColour(Word16(block, 8), Word16(block, 10));
  }

  /** The colour half of a BC3 block, read as a BC1 block, has the same
      endpoints and index bits. */
  lemma ColourHalfFields(block: seq<byte>, k: nat)
    requires |block| >= 16 && k < 16
    ensures Word16(block[8..16], 0) == Word16(block, 8)
    ensures Word16(block[8..16], 2) == Word16(block, 10)
    ensures ColourIndex(block[8..16], 4, k) == ColourIndex(block, 12, k)
  {
    var tail := block[8..16];
    assert tail[0..2] == block[8..10];
    assert tail[2..4] == block[10..12];
    assert tail[4..8] == block[12..16];
  }
}

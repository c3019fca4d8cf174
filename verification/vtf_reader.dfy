/** `VTFReader`: the viewer's wrapper around a texture. It sizes an RGBA8888
    image for a mip level, picks the mip level a thumbnail is taken from,
    and names the texture's format. */
module VtfReader {
  import opened Bytes
  import opened VtfFormat
  import opened VtfHeader
  import opened VtfLayout
  import opened Raster
  import opened VtfFile

  /** A `QImage`: the null image, or an RGBA8888 raster of the given size. */
  datatype Image = Null | Image(width: nat, height: nat, bits: seq<byte>)

  /** `getImage(frame, mipmap)`: the null image unless the texture is
      loaded and `GetImageData` accepts the indices; otherwise an image of
      `max(1, W >> mipmap)` by `max(1, H >> mipmap)` pixels, each the decoded
      pixel of that mip. */
  method GetImage(v: Texture, frame: nat, mipmap: nat) returns (img: Image)
    requires Valid(v)
    ensures img.Null? <==> !(v.loaded && frame < v.header.frames && mipmap < v.header.mipmapCount)
    ensures img.Image? ==>
      img.width == MipDim(v.header.width, mipmap) && img.height == MipDim(v.header.height, mipmap) &&
      |img.bits| == img.width * img.height * 4 && IsImage(v, frame, mipmap, img.bits)
  {
    if !v.loaded {
      return Null;
    }
    var width, height := MipDim(v.header.width, mipmap), MipDim(v.header.height, mipmap);
    MulMono(0, width * height, 4);
    var ok, bits := GetImageData(v, seq(width * height * 4, _ => 0), frame, mipmap);
    if ok {
      return Image(width, height, bits);
    }
    return Null;
  }

  /** `W >> k` on a non-negative value; the mip extent is this shift
      clamped to at least 1. */
  function Shr(d: nat, k: nat): (r: int)
    ensures MipDim(d, k) == if r < 1 then 1 else r
  {
    d / Pow2(k)
  }

  /** The thumbnail loop moves on from mip `m` to mip `m + 1`: there is a
      next mip and both of its dimensions are still at least `maxSize`. */
  predicate Descends(count: nat, w: nat, h: nat, maxSize: int, m: nat) {
    m < count - 1 && Shr(w, m + 1) >= maxSize && Shr(h, m + 1) >= maxSize
  }

  /** The mip the thumbnail is taken from: the loop moved on from every
      mip before `m` and stopped at `m`. */
  predicate IsThumbnailMip(count: nat, w: nat, h: nat, maxSize: int, m: nat) {
    (forall k: nat :: k < m ==> Descends(count, w, h, maxSize, k)) && !Descends(count, w, h, maxSize, m)
  }

  /** The mip-selection loop of `getThumbnail`. */
  method ThumbnailMip(count: nat, w: nat, h: nat, maxSize: int) returns (m: nat)
    ensures IsThumbnailMip(count, w, h, maxSize, m)
  {
    m := 0;
    while m < count - 1
      invariant forall k: nat :: k < m ==> Descends(count, w, h, maxSize, k)
      decreases count - m
    {
      var mipWidth, mipHeight := Shr(w, m + 1), Shr(h, m + 1);
      if mipWidth < maxSize || mipHeight < maxSize {
        break;
      }
      m := m + 1;
    }
  }

  /** Exactly one mip satisfies the loop's stopping rule. */
  lemma ThumbnailMipUnique(count: nat, w: nat, h: nat, maxSize: int, m: nat, m': nat)
    requires IsThumbnailMip(count, w, h, maxSize, m) && IsThumbnailMip(count, w, h, maxSize, m')
    ensures m == m'
  {
    var lower := if m < m' then m else m';
    assert !Descends(count, w, h, maxSize, lower);
  }

  /** The selected mip is the last one or earlier, and any mip past the
      first still has both dimensions at least `maxSize`. */
  lemma ThumbnailMipBounds(count: nat, w: nat, h: nat, maxSize: int, m: nat)
    requires IsThumbnailMip(count, w, h, maxSize, m)
    ensures m == 0 || m < count
    ensures m > 0 ==> Shr(w, m) >= maxSize && Shr(h, m) >= maxSize
  {
    if m > 0 {
      assert Descends(count, w, h, maxSize, m - 1);
    }
  }

  /** The loop stops before the last mip only because the next mip would
      be narrower or lower than `maxSize`. */
  lemma ThumbnailStopsAtSize(count: nat, w: nat, h: nat, maxSize: int, m: nat)
    requires IsThumbnailMip(count, w, h, maxSize, m)
    ensures m + 1 < count ==> Shr(w, m + 1) < maxSize || Shr(h, m + 1) < maxSize
  {
  }

  /** `getThumbnail(maxSize)`: frame 0 of the selected mip, the null image
      when the texture is not loaded or has no frame or mip. */
  method GetThumbnail(v: Texture, maxSize: int) returns (img: Image, mip: nat)
    requires Valid(v)
    ensures IsThumbnailMip(v.header.mipmapCount, v.header.width, v.header.height, maxSize, mip)
    ensures img.Null? <==> !(v.loaded && v.header.frames > 0 && v.header.mipmapCount > 0)
    ensures img.Image? ==>
      mip < v.header.mipmapCount && img.width == MipDim(v.header.width, mip) &&
      img.height == MipDim(v.header.height, mip) && |img.bits| == img.width * img.height * 4 &&
      IsImage(v, 0, mip, img.bits)
  {
    mip := ThumbnailMip(v.header.mipmapCount, v.header.width, v.header.height, maxSize);
    if !v.loaded {
      return Null, mip;
    }
    ThumbnailMipBounds(v.header.mipmapCount, v.header.width, v.header.height, maxSize, mip);
    img := GetImage(v, 0, mip);
  }

  /** `getFormat`: the name of the format the header's format word holds. */
  function GetFormat(v: Texture): (r: string)
    requires WellFormed(v.header)
    ensures r != "UNKNOWN" <==> Named(FormatOfWord(v.header.highResImageFormat))
  {
    NameUnknown(FormatOfWord(v.header.highResImageFormat));
    Name(FormatOfWord(v.header.highResImageFormat))
  }
}

/** `VTFFile`: loading a texture from the bytes of a file, and reading one
    mip level of one frame back as RGBA8888. */
module VtfFile {
  import opened Bytes
  import opened VtfFormat
  import opened VtfHeader
  import opened VtfLayout
  import opened S3tc
  import opened Raster
  import opened BlockDecode
  import opened Convert

  /** The state of a `VTFFile` object. */
  datatype Texture = Texture(header: Header, imageData: seq<byte>, loaded: bool)

  /** A texture whose payload has the size its header declares, once loaded. */
  predicate Valid(v: Texture) {
    WellFormed(v.header) && (v.loaded ==> |v.imageData| == PayloadSize(v.header))
  }

  /** The header a freshly constructed object holds: every byte zero. */
  function ZeroHeader(): (h: Header)
    ensures WellFormed(h)
  {
    ParseHeader(seq(HEADER_BYTES, _ => 0))
  }

  /** The constructor: zeroed header, no payload, not loaded. */
  function Fresh(): (v: Texture)
    ensures Valid(v) && !v.loaded
  {
    Texture(ZeroHeader(), [], false)
  }

  /** A fresh object reports zero for every header number. */
  lemma FreshIsZero()
    ensures var h := Fresh().header;
      h.width == 0 && h.height == 0 && h.frames == 0 && h.mipmapCount == 0 &&
      h.flags == 0 && h.depth == 0 && h.highResImageFormat == 0
  {
    var b: seq<byte> := seq(HEADER_BYTES, _ => 0);
    forall f: Field ensures DecodeLE(Slice(b, f)) == 0 {
      ZeroDecodes(Slice(b, f));
    }
  }

  lemma {:induction false} ZeroDecodes(s: seq<byte>)
    requires forall i :: 0 <= i < |s| ==> s[i] == 0
    ensures DecodeLE(s) == 0
  {
    if |s| > 0 {
      ZeroDecodes(s[1..]);
    }
  }

  /** The 65 header bytes after `read`: the file's first bytes, and where
      the file is shorter, the bytes the object's header already held. */
  function HeaderRead(prev: Header, data: seq<byte>): (b: seq<byte>)
    requires WellFormed(prev)
    ensures |b| == HEADER_BYTES
  {
    var e := EncodeHeader(prev);
    seq(HEADER_BYTES, i requires 0 <= i < HEADER_BYTES => if i < |data| then data[i] else e[i])
  }

  /** `strncmp(signature, "VTF\0", 4) == 0`: the comparison stops at the
      terminator of the constant only after matching it, so all four bytes
      must agree. Then major version 7 and minor version at most 5. */
  predicate Accepted(h: Header) {
    h.signature == SIGNATURE && h.versionMajor == 7 && h.versionMinor <= 5
  }

  /** `imageData_.resize(total)` followed by a read of what the stream still
      holds from `start`: a byte the file has comes from the file; the rest
      keep the vector's previous contents, or zero past its old end. When
      the header read already failed, the stream reads nothing. */
  function ReadPayload(prev: seq<byte>, data: seq<byte>, start: nat, total: nat, streamOk: bool): (r: seq<byte>)
    ensures |r| == total
  {
    seq(total, i requires 0 <= i < total =>
      if streamOk && start + i < |data| then data[start + i]
      else if i < |prev| then prev[i] else 0)
  }

  /** `Load` over the bytes `data` of a file. The header is overwritten even
      when it is rejected; `loaded_` is only ever set, never cleared. */
  function Load(v: Texture, data: seq<byte>): (r: (Texture, bool))
    requires WellFormed(v.header)
    ensures WellFormed(r.0.header)
    ensures r.0.loaded == (v.loaded || r.1)
    ensures !r.1 ==> r.0.imageData == v.imageData
    ensures r.1 ==> Valid(r.0)
  {
    var h := ParseHeader(HeaderRead(v.header, data));
    if !Accepted(h) then
      (v.(header := h), false)
    else
      (Texture(h, ReadPayload(v.imageData, data, PayloadStart(h), PayloadSize(h), |data| >= HEADER_BYTES), true), true)
  }

  /** The byte at `k` of a file, zero past its end. */
  function ByteAt(s: seq<byte>, k: nat): byte {
    if k < |s| then s[k] else 0
  }

  /** Loading a written header followed by any bytes recovers the header,
      and succeeds exactly when the header is accepted. */
  lemma LoadReadsEncoded(h: Header, rest: seq<byte>)
    requires WellFormed(h)
    ensures var r := Load(Fresh(), EncodeHeader(h) + rest);
      (r.1 <==> Accepted(h)) && r.0.header == h
  {
    assert HeaderRead(ZeroHeader(), EncodeHeader(h) + rest) == EncodeHeader(h);
    ParseEncodeHeader(h);
  }

  /** The payload of a successful load of a file at least a header long
      is the file from `PayloadStart` on, zero-filled past its end. */
  lemma LoadPayloadFromFile(data: seq<byte>)
    requires |data| >= HEADER_BYTES
    ensures var r := Load(Fresh(), data);
      r.1 ==> (|r.0.imageData| == PayloadSize(r.0.header) &&
        forall i :: 0 <= i < PayloadSize(r.0.header) ==>
          r.0.imageData[i] == ByteAt(data, PayloadStart(r.0.header) + i))
  {
    var r := Load(Fresh(), data);
    if r.1 {
      var h := r.0.header;
      assert r.0.imageData == ReadPayload([], data, PayloadStart(h), PayloadSize(h), true);
      FreshPayloadIsFile(data, PayloadStart(h), PayloadSize(h));
    }
  }

  lemma FreshPayloadIsFile(data: seq<byte>, start: nat, total: nat)
    ensures forall i :: 0 <= i < total ==> ReadPayload([], data, start, total, true)[i] == ByteAt(data, start + i)
  {
  }

  /** A rejected header leaves `loaded_` and the payload as they were, so
      on a fresh object the result is an unloaded texture. */
  lemma LoadRejects(v: Texture, data: seq<byte>)
    requires WellFormed(v.header)
    requires !Accepted(ParseHeader(HeaderRead(v.header, data)))
    ensures !Load(v, data).1
    ensures Load(v, data).0.loaded == v.loaded && Load(v, data).0.imageData == v.imageData
  {
  }

  /** A file shorter than the header loads with an all-zero payload, and a
      file is rejected unless its first four bytes are the signature. */
  lemma ShortFileZeroPayload(data: seq<byte>)
    requires |data| < HEADER_BYTES
    ensures var r := Load(Fresh(), data);
      r.1 ==> forall i :: 0 <= i < |r.0.imageData| ==> r.0.imageData[i] == 0
  {
  }

  lemma SignatureRequired(data: seq<byte>)
    requires |data| >= 4 && data[..4] != SIGNATURE
    ensures !Load(Fresh(), data).1
  {
    var b := HeaderRead(ZeroHeader(), data);
    assert Slice(b, Signature) == b[..4] == data[..4];
    ParsedFieldBytes(b, Signature);
  }

  // ---------------------------------------------------------------------
  // Reading a mip level back

  /** `GetImageDataSize`: the RGBA8888 bytes of mip `m`, 0 past the last mip. */
  function GetImageDataSize(v: Texture, m: nat): (r: nat)
    ensures r == 0 <==> m >= v.header.mipmapCount
    ensures r % 4 == 0
    ensures m < v.header.mipmapCount ==>
      r == ComputeImageSize(MipDim(v.header.width, m), MipDim(v.header.height, m), RGBA8888)
  {
    if m >= v.header.mipmapCount then 0
    else
      var mw, mh := MipDim(v.header.width, m), MipDim(v.header.height, m);
      MulMono(1, mw, mh);
      assert mw * mh * 32 == (mw * mh * 4) * 8;
      mw * mh * 4
  }

  /** A format the converter handles fits the bytes `ComputeImageSize`
      reserves for it. */
  lemma ConvertSourceFits(w: nat, h: nat, f: ImageFormat)
    ensures !IsBc1(f) && !IsBc3(f) ==> ComputeImageSize(w, h, f) >= w * h * SourceStride(f)
  {
    SourceStrideIsBpp(f);
  }

  /** The payload from the start of mip `m` of frame `f` on: at least the
      bytes `ComputeImageSize` reserves for that mip, which is what the
      decoder of its format reads. */
  function MipSource(v: Texture, f: nat, m: nat): (src: seq<byte>)
    requires Valid(v) && v.loaded
    requires f < v.header.frames && m < v.header.mipmapCount
    ensures var mw, mh, fmt := MipDim(v.header.width, m), MipDim(v.header.height, m), Fmt(v.header);
      |src| >= ComputeImageSize(mw, mh, fmt) &&
      (IsBc1(fmt) ==> |src| >= SourceBytes(Bc1, mw, mh)) &&
      (IsBc3(fmt) ==> |src| >= SourceBytes(Bc3, mw, mh)) &&
      (!IsBc1(fmt) && !IsBc3(fmt) ==> |src| >= mw * mh * SourceStride(fmt))
  {
    var mw, mh, fmt := MipDim(v.header.width, m), MipDim(v.header.height, m), Fmt(v.header);
    MipWithinPayload(v.header, f, m);
    SourceBytesIsImageSize(mw, mh, fmt);
    ConvertSourceFits(mw, mh, fmt);
    v.imageData[MipOffset(v.header, f, m)..]
  }

  /** The decoded pixel (`x`, `y`) of mip `m` of frame `f`: the encoded mip
      starts at `MipOffset`; DXT1 and DXT1_ONEBITALPHA decode as BC1, DXT3
      and DXT5 both decode as BC3, and every other format goes through the
      converter. */
  function ImagePixel(v: Texture, f: nat, m: nat, x: nat, y: nat): Rgba
    requires Valid(v) && v.loaded
    requires f < v.header.frames && m < v.header.mipmapCount
    requires x < MipDim(v.header.width, m) && y < MipDim(v.header.height, m)
  {
    var mw, mh, fmt := MipDim(v.header.width, m), MipDim(v.header.height, m), Fmt(v.header);
    if IsBc1(fmt) then DecodedPixel(Bc1, MipSource(v, f, m), mw, mh, x, y)
    else if IsBc3(fmt) then DecodedPixel(Bc3, MipSource(v, f, m), mw, mh, x, y)
    else ConvertedPixel(fmt, MipSource(v, f, m), mw * mh, PixelIndex(mw, mh, x, y))
  }

  /** DXT3 data is decoded with the DXT5 algorithm, alpha included. */
  lemma Dxt3DecodesAsDxt5(v: Texture, f: nat, m: nat, x: nat, y: nat)
    requires Valid(v) && v.loaded
    requires f < v.header.frames && m < v.header.mipmapCount
    requires x < MipDim(v.header.width, m) && y < MipDim(v.header.height, m)
    requires Fmt(v.header) == DXT3
    ensures var mw, mh := MipDim(v.header.width, m), MipDim(v.header.height, m);
      MipOffset(v.header, f, m) + SourceBytes(Bc3, mw, mh) <= |v.imageData| &&
      ImagePixel(v, f, m, x, y) ==
        DecodedPixel(Bc3, v.imageData[MipOffset(v.header, f, m)..], mw, mh, x, y)
  {
    MipWithinPayload(v.header, f, m);
    SourceBytesIsImageSize(MipDim(v.header.width, m), MipDim(v.header.height, m), DXT3);
  }

  /** `GetImageData(buffer, frame, mipmap)`: false, with the buffer
      untouched, unless the texture is loaded and both indices are in
      range; otherwise every pixel of the mip is written as `ImagePixel`,
      and nothing past `GetImageDataSize` bytes. */
  method GetImageData(v: Texture, buffer: seq<byte>, frame: nat, mipmap: nat)
    returns (ok: bool, out: seq<byte>)
    requires Valid(v)
    requires |buffer| >= GetImageDataSize(v, mipmap)
    ensures ok <==> v.loaded && frame < v.header.frames && mipmap < v.header.mipmapCount
    ensures !ok ==> out == buffer
    ensures |out| == |buffer|
    ensures out[GetImageDataSize(v, mipmap)..] == buffer[GetImageDataSize(v, mipmap)..]
    ensures ok ==> IsImage(v, frame, mipmap, out)
  {
    var h := v.header;
    if !v.loaded || frame >= h.frames || mipmap >= h.mipmapCount {
      return false, buffer;
    }
    var fmt := Fmt(h);
    if IsBc1(fmt) {
      out := DecodeMipBlocks(v, buffer, frame, mipmap, Bc1);
    } else if fmt == DXT5 {
      out := DecodeMipBlocks(v, buffer, frame, mipmap, Bc3);
    } else if fmt == DXT3 {
      out := DecodeMipBlocks(v, buffer, frame, mipmap, Bc3);
    } else {
      out := ConvertMip(v, buffer, frame, mipmap);
    }
    ok := true;
  }

  /** The pixels of mip `m` of frame `f` a loaded texture promises. */
  ghost predicate IsImage(v: Texture, f: nat, m: nat, out: seq<byte>)
    requires Valid(v) && v.loaded && f < v.header.frames && m < v.header.mipmapCount
    requires |out| >= MipDim(v.header.width, m) * MipDim(v.header.height, m) * 4
  {
    forall x: nat, y: nat ::
      x < MipDim(v.header.width, m) && y < MipDim(v.header.height, m) ==>
        PixelIn(out, MipDim(v.header.width, m), MipDim(v.header.height, m), x, y) == ImagePixel(v, f, m, x, y)
  }

  /** `DecompressDXT1` or `DecompressDXT5` on the mip's bytes. */
  method DecodeMipBlocks(v: Texture, buffer: seq<byte>, frame: nat, mipmap: nat, fam: Family)
    returns (out: seq<byte>)
    requires Valid(v) && v.loaded && frame < v.header.frames && mipmap < v.header.mipmapCount
    requires if fam == Bc1 then IsBc1(Fmt(v.header)) else IsBc3(Fmt(v.header))
    requires |buffer| >= GetImageDataSize(v, mipmap)
    ensures |out| == |buffer| && out[GetImageDataSize(v, mipmap)..] == buffer[GetImageDataSize(v, mipmap)..]
    ensures IsImage(v, frame, mipmap, out)
  {
    var h := v.header;
    var mw, mh := MipDim(h.width, mipmap), MipDim(h.height, mipmap);
    var offset := ComputeMipmapOffset(h, frame, mipmap);
    MipWithinPayload(h, frame, mipmap);
    SourceBytesIsImageSize(mw, mh, Fmt(h));
    ghost var log;
    out, log := DecompressBlocks(fam, v.imageData[offset..], buffer, mw, mh);
    BlocksAreImage(v, frame, mipmap, fam, out);
  }

  /** `ConvertToRGBA8888` on the mip's bytes. */
  method ConvertMip(v: Texture, buffer: seq<byte>, frame: nat, mipmap: nat)
    returns (out: seq<byte>)
    requires Valid(v) && v.loaded && frame < v.header.frames && mipmap < v.header.mipmapCount
    requires !IsBc1(Fmt(v.header)) && !IsBc3(Fmt(v.header))
    requires |buffer| >= GetImageDataSize(v, mipmap)
    ensures |out| == |buffer| && out[GetImageDataSize(v, mipmap)..] == buffer[GetImageDataSize(v, mipmap)..]
    ensures IsImage(v, frame, mipmap, out)
  {
    var h := v.header;
    var mw, mh := MipDim(h.width, mipmap), MipDim(h.height, mipmap);
    var offset := ComputeMipmapOffset(h, frame, mipmap);
    MipWithinPayload(h, frame, mipmap);
    ConvertSourceFits(mw, mh, Fmt(h));
    out := ConvertToRgba8888(v.imageData[offset..], buffer, mw, mh, Fmt(h));
    ConvertedIsImage(v, frame, mipmap, out);
  }

  /** A block-decoded mip of the right family is the image. */
  lemma BlocksAreImage(v: Texture, f: nat, m: nat, fam: Family, out: seq<byte>)
    requires Valid(v) && v.loaded && f < v.header.frames && m < v.header.mipmapCount
    requires if fam == Bc1 then IsBc1(Fmt(v.header)) else IsBc3(Fmt(v.header))
    requires var mw, mh := MipDim(v.header.width, m), MipDim(v.header.height, m);
      |out| >= mw * mh * 4 && MipOffset(v.header, f, m) + SourceBytes(fam, mw, mh) <= |v.imageData| &&
      IsDecoded(fam, v.imageData[MipOffset(v.header, f, m)..], mw, mh, out)
    ensures IsImage(v, f, m, out)
  {
  }

  /** A converted mip is the image. */
  lemma ConvertedIsImage(v: Texture, f: nat, m: nat, out: seq<byte>)
    requires Valid(v) && v.loaded && f < v.header.frames && m < v.header.mipmapCount
    requires !IsBc1(Fmt(v.header)) && !IsBc3(Fmt(v.header))
    requires var mw, mh := MipDim(v.header.width, m), MipDim(v.header.height, m);
      |out| >= mw * mh * 4 &&
      MipOffset(v.header, f, m) + mw * mh * SourceStride(Fmt(v.header)) <= |v.imageData| &&
      forall i :: 0 <= i < mw * mh ==>
        Load4(out, i * 4) == ConvertedPixel(Fmt(v.header), v.imageData[MipOffset(v.header, f, m)..], mw * mh, i)
    ensures IsImage(v, f, m, out)
  {
    var mw, mh := MipDim(v.header.width, m), MipDim(v.header.height, m);
    forall x: nat, y: nat | x < mw && y < mh
      ensures PixelIn(out, mw, mh, x, y) == ImagePixel(v, f, m, x, y)
    {
      var i := PixelIndex(mw, mh, x, y);
      assert MipSource(v, f, m) == v.imageData[MipOffset(v.header, f, m)..];
      assert Load4(out, i * 4) == ConvertedPixel(Fmt(v.header), MipSource(v, f, m), mw * mh, i);
    }
  }
}

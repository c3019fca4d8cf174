/** Layout arithmetic of the texture payload: mip dimensions, the encoded
    size of one image, and where each (frame, mip) image starts. Within a
    frame the mips are stored smallest first; frames follow each other. */
module VtfLayout {
  import opened Bytes
  import opened VtfFormat
  import opened VtfHeader

  /** `std::max(1, d >> m)`: the extent of mip level `m` of a base extent `d`. */
  function MipDim(d: nat, m: nat): (r: nat)
    ensures r >= 1
  {
    var s := d / Pow2(m);
    if s < 1 then 1 else s
  }

  /** Each level halves the previous one, rounding down, but never below 1. */
  lemma {:induction false} MipDimHalves(d: nat, m: nat)
    ensures MipDim(d, m + 1) == if MipDim(d, m) / 2 < 1 then 1 else MipDim(d, m) / 2
    ensures MipDim(d, m + 1) <= MipDim(d, m)
  {
    ShiftCompose(d, m);
  }

  /** The first level is the base extent, and once `2^m` reaches the base
      extent the level is exactly 1. */
  lemma {:induction false} MipDimEnds(d: nat, m: nat)
    ensures d >= 1 ==> MipDim(d, 0) == d
    ensures d <= Pow2(m) ==> MipDim(d, m) == 1
  {
    if d <= Pow2(m) {
      if d < Pow2(m) {
        DivUnique(d, Pow2(m), 0, d);
      } else {
        DivUnique(d, Pow2(m), 1, 0);
      }
    }
  }

  /** Formats decoded by the 8-byte-block algorithm. */
  predicate IsBc1(f: ImageFormat) {
    f == DXT1 || f == DXT1_ONEBITALPHA
  }

  /** Formats decoded by the 16-byte-block algorithm. */
  predicate IsBc3(f: ImageFormat) {
    f == DXT3 || f == DXT5
  }

  /** `(d + 3) / 4`: the number of 4-pixel blocks covering `d` pixels. */
  function BlocksAcross(d: nat): (r: nat)
    ensures 4 * r >= d && 4 * r < d + 4
  {
    (d + 3) / 4
  }

  /** Bytes of a `w` x `h` image stored as 4x4 blocks of `blockBytes`
      bytes each, partial blocks included. */
  function BlockImageSize(w: nat, h: nat, blockBytes: nat): (r: nat) {
    BlocksAcross(w) * BlocksAcross(h) * blockBytes
  }

  /** Bytes of a `w` x `h` image of `bpp` bits per pixel, rounded down. */
  function PlainImageSize(w: nat, h: nat, bpp: nat): (r: nat) {
    (w * h * bpp) / 8
  }

  /** `ComputeImageSize`: bytes one `w` x `h` image of format `f` occupies:
      8 bytes per 4x4 block for DXT1 and DXT1_ONEBITALPHA, 16 for DXT3 and
      DXT5, and `w * h * bpp / 8` rounded down for every other format. */
  function ComputeImageSize(w: nat, h: nat, f: ImageFormat): (r: nat) {
    if IsBc1(f) then BlockImageSize(w, h, 8)
    else if IsBc3(f) then BlockImageSize(w, h, 16)
    else PlainImageSize(w, h, Bpp(f))
  }

  /** The stored size covers at least the nominal bits per pixel, and it
      is zero for a non-empty image exactly when the format has no bit
      count (NONE and unlisted ids). */
  lemma ImageSizeBounds(w: nat, h: nat, f: ImageFormat)
    ensures ComputeImageSize(w, h, f) >= PlainImageSize(w, h, Bpp(f))
    ensures w >= 1 && h >= 1 ==> (ComputeImageSize(w, h, f) == 0 <==> Bpp(f) == 0)
  {
    if IsBc1(f) {
      BlockFootprintCovers(w, h, 4);
    } else if IsBc3(f) {
      BlockFootprintCovers(w, h, 8);
    } else {
      PlainSizeZero(w, h, Bpp(f));
    }
  }

  /** Whole blocks of 16 pixels cover at least the nominal bits per pixel,
      and at least one block is stored for a non-empty image. */
  lemma BlockFootprintCovers(w: nat, h: nat, bpp: nat)
    requires bpp == 4 || bpp == 8
    ensures BlockImageSize(w, h, 2 * bpp) >= PlainImageSize(w, h, bpp)
    ensures w >= 1 && h >= 1 ==> BlockImageSize(w, h, 2 * bpp) > 0
  {
    var bw, bh := BlocksAcross(w), BlocksAcross(h);
    MulBoth(w, 4 * bw, h, 4 * bh);
    var blocks := bw * bh;
    assert (4 * bw) * (4 * bh) == 16 * blocks;
    MulMono(w * h, 16 * blocks, bpp);
    assert (16 * blocks) * bpp == 8 * (blocks * (2 * bpp));
    if w >= 1 && h >= 1 {
      MulMono(1, bw, bh);
      MulMono(1, blocks, 2 * bpp);
    }
  }

  /** An uncompressed image is empty only for a format without a bit count. */
  lemma PlainSizeZero(w: nat, h: nat, bpp: nat)
    requires bpp == 0 || bpp >= 8
    ensures w >= 1 && h >= 1 ==> (PlainImageSize(w, h, bpp) == 0 <==> bpp == 0)
  {
    if w >= 1 && h >= 1 && bpp > 0 {
      MulMono(1, w * h, bpp);
    }
  }

  lemma MulBoth(a: nat, b: nat, c: nat, d: nat)
    requires a <= b && c <= d
    ensures a * c <= b * d
  {
    MulMono(a, b, c);
    assert b * c <= b * d;
  }

  /** For whole blocks the block footprint is the nominal bits per pixel:
      16 pixels of 4 bits make 8 bytes, 16 pixels of 8 bits make 16. */
  lemma {:induction false} BlockSizeMatchesBpp(bw: nat, bh: nat, f: ImageFormat)
    requires IsBc1(f) || IsBc3(f)
    ensures ComputeImageSize(4 * bw, 4 * bh, f) == PlainImageSize(4 * bw, 4 * bh, Bpp(f))
  {
    assert BlocksAcross(4 * bw) == bw;
    assert BlocksAcross(4 * bh) == bh;
    assert 4 * bw * (4 * bh) == 16 * (bw * bh);
  }

  // ---------------------------------------------------------------------
  // Storage order over the sizes of one frame's mips

  /** Sum of `s[k]` for `lo <= k < hi`. */
  function Sum(s: seq<nat>, lo: nat, hi: nat): nat
    requires hi <= |s|
    decreases hi
  {
    if hi <= lo then 0 else Sum(s, lo, hi - 1) + s[hi - 1]
  }

  /** Peeling the lowest term off a sum. */
  lemma {:induction false} SumSplitLow(s: seq<nat>, lo: nat, hi: nat)
    requires lo < hi <= |s|
    ensures Sum(s, lo, hi) == s[lo] + Sum(s, lo + 1, hi)
    decreases hi
  {
    if lo + 1 < hi {
      SumSplitLow(s, lo, hi - 1);
    }
  }

  /** Where mip `m` of frame `f` starts when every frame stores the mips
      sized `s` (mip 0 first in `s`): all earlier frames, then the mips of
      frame `f` smaller than `m`, which are stored before it. */
  function Offset(s: seq<nat>, f: nat, m: nat): nat
    requires m < |s|
  {
    MulMono(0, f, Sum(s, 0, |s|));
    f * Sum(s, 0, |s|) + Sum(s, m + 1, |s|)
  }

  /** Mip `m` follows mip `m + 1` directly. */
  lemma {:induction false} OffsetStep(s: seq<nat>, f: nat, m: nat)
    requires m + 1 < |s|
    ensures Offset(s, f, m) == Offset(s, f, m + 1) + s[m + 1]
  {
    SumSplitLow(s, m + 1, |s|);
  }

  /** The next frame starts right after mip 0, the largest, of this frame. */
  lemma {:induction false} FramesBackToBack(s: seq<nat>, f: nat)
    requires |s| >= 1
    ensures Offset(s, f, 0) + s[0] == Offset(s, f + 1, |s| - 1)
  {
    SumSplitLow(s, 0, |s|);
    MulSucc(f, Sum(s, 0, |s|));
  }

  /** Position of (f, m) in storage order: frame-major, smallest mip first. */
  function StorageRank(count: nat, f: nat, m: nat): nat
    requires m < count
  {
    f * count + (count - 1 - m)
  }

  /** The image stored after another starts no earlier than the other ends. */
  lemma {:induction false} MipRangesOrdered(s: seq<nat>, f1: nat, m1: nat, f2: nat, m2: nat)
    requires m1 < |s| && m2 < |s|
    requires StorageRank(|s|, f1, m1) < StorageRank(|s|, f2, m2)
    ensures Offset(s, f1, m1) + s[m1] <= Offset(s, f2, m2)
    decreases StorageRank(|s|, f2, m2)
  {
    var mc := |s|;
    // The image stored right before (f2, m2), and its end.
    if m2 + 1 < mc {
      OffsetStep(s, f2, m2);
      if StorageRank(mc, f1, m1) < StorageRank(mc, f2, m2 + 1) {
        MipRangesOrdered(s, f1, m1, f2, m2 + 1);
      } else {
        RankInjective(mc, f1, m1, f2, m2 + 1);
      }
    } else {
      assert f2 * mc > 0;
      FramesBackToBack(s, f2 - 1);
      if StorageRank(mc, f1, m1) < StorageRank(mc, f2 - 1, 0) {
        MipRangesOrdered(s, f1, m1, f2 - 1, 0);
      } else {
        RankInjective(mc, f1, m1, f2 - 1, 0);
      }
    }
  }

  /** Two images with the same storage rank are the same image. */
  lemma RankInjective(count: nat, f1: nat, m1: nat, f2: nat, m2: nat)
    requires m1 < count && m2 < count
    requires StorageRank(count, f1, m1) <= StorageRank(count, f2, m2)
    requires StorageRank(count, f2, m2) < StorageRank(count, f1, m1) + 1
    ensures f1 == f2 && m1 == m2
  {
    DivUnique(StorageRank(count, f1, m1), count, f1, count - 1 - m1);
    DivUnique(StorageRank(count, f2, m2), count, f2, count - 1 - m2);
  }

  /** Every image of the first `frames` frames ends within `frames` whole
      frames. */
  lemma {:induction false} MipWithinFrames(s: seq<nat>, frames: nat, f: nat, m: nat)
    requires f < frames && m < |s|
    ensures Offset(s, f, m) + s[m] <= frames * Sum(s, 0, |s|)
    decreases m
  {
    if m > 0 {
      MipRangesOrdered(s, f, m, f, m - 1);
      MipWithinFrames(s, frames, f, m - 1);
    } else {
      FramesBackToBack(s, f);
      MulMono(f + 1, frames, Sum(s, 0, |s|));
    }
  }

  lemma MulSucc(f: nat, x: nat)
    ensures (f + 1) * x == f * x + x
  {
  }

  // ---------------------------------------------------------------------
  // Payload layout of a header

  /** The high-resolution format named by the header. */
  function Fmt(h: Header): ImageFormat
    requires WellFormed(h)
  {
    FormatOfWord(h.highResImageFormat)
  }

  /** Encoded size of mip level `m` of any frame. */
  function MipSize(h: Header, m: nat): nat
    requires WellFormed(h)
  {
    ComputeImageSize(MipDim(h.width, m), MipDim(h.height, m), Fmt(h))
  }

  /** The sizes of a frame's mips, mip 0 first. */
  function MipSizes(h: Header): (s: seq<nat>)
    requires WellFormed(h)
    ensures |s| == h.mipmapCount
  {
    seq(h.mipmapCount, m requires 0 <= m => MipSize(h, m))
  }

  /** Bytes of one frame: all of its mip levels. */
  function FrameSize(h: Header): nat
    requires WellFormed(h)
  {
    Sum(MipSizes(h), 0, h.mipmapCount)
  }

  /** Bytes of the whole payload: every mip of every frame. */
  function PayloadSize(h: Header): nat
    requires WellFormed(h)
  {
    MulMono(0, h.frames, FrameSize(h));
    h.frames * FrameSize(h)
  }

  /** Where mip `m` of frame `f` of the header's payload starts. */
  function MipOffset(h: Header, f: nat, m: nat): nat
    requires WellFormed(h)
    requires m < h.mipmapCount
  {
    Offset(MipSizes(h), f, m)
  }

  /** The smallest mip of a frame starts the frame. */
  lemma OffsetOfSmallestMip(h: Header, f: nat)
    requires WellFormed(h) && h.mipmapCount >= 1
    ensures MipOffset(h, f, h.mipmapCount - 1) == f * FrameSize(h)
  {
  }

  /** Offsets grow strictly as the mip level falls, unless the format has
      no size at all. */
  lemma {:induction false} OffsetGrowsTowardMip0(h: Header, f: nat, m: nat)
    requires WellFormed(h) && m + 1 < h.mipmapCount
    ensures Bpp(Fmt(h)) > 0 <==> MipOffset(h, f, m) > MipOffset(h, f, m + 1)
  {
    OffsetStep(MipSizes(h), f, m);
    assert MipSizes(h)[m + 1] == MipSize(h, m + 1);
    ImageSizeBounds(MipDim(h.width, m + 1), MipDim(h.height, m + 1), Fmt(h));
  }

  /** Every in-range image of the header lies inside the payload. */
  lemma {:induction false} MipWithinPayload(h: Header, f: nat, m: nat)
    requires WellFormed(h) && f < h.frames && m < h.mipmapCount
    ensures MipOffset(h, f, m) + MipSize(h, m) <= PayloadSize(h)
  {
    MipWithinFrames(MipSizes(h), h.frames, f, m);
    assert MipSizes(h)[m] == MipSize(h, m);
  }

  /** `ComputeMipmapOffset`, with the loops of the source: whole frames
      first, then the mips of the target frame from the smallest down to,
      but not including, the target mip. */
  method ComputeMipmapOffset(h: Header, frame: nat, mipmap: nat) returns (offset: nat)
    requires WellFormed(h)
    requires mipmap < h.mipmapCount
    ensures offset == MipOffset(h, frame, mipmap)
  {
    ghost var s := MipSizes(h);
    offset := 0;
    var f := 0;
    while f < frame
      invariant f <= frame
      invariant offset == f * FrameSize(h)
    {
      var m := 0;
      while m < h.mipmapCount
        invariant m <= h.mipmapCount
        invariant offset == f * FrameSize(h) + Sum(s, 0, m)
      {
        offset := offset + MipSize(h, m);
        m := m + 1;
      }
      MulSucc(f, FrameSize(h));
      f := f + 1;
    }
    var m := h.mipmapCount - 1;
    ghost var base := offset;
    while m > mipmap
      invariant mipmap <= m < h.mipmapCount
      invariant offset == base + Sum(s, m + 1, h.mipmapCount)
    {
      SumSplitLow(s, m, h.mipmapCount);
      offset := offset + MipSize(h, m);
      m := m - 1;
    }
  }

  /** The payload size computed by `Load`: one pass over every frame and mip. */
  method ComputeTotalSize(h: Header) returns (total: nat)
    requires WellFormed(h)
    ensures total == PayloadSize(h)
  {
    ghost var s := MipSizes(h);
    total := 0;
    var f := 0;
    while f < h.frames
      invariant f <= h.frames
      invariant total == f * FrameSize(h)
    {
      var m := 0;
      while m < h.mipmapCount
        invariant m <= h.mipmapCount
        invariant total == f * FrameSize(h) + Sum(s, 0, m)
      {
        total := total + MipSize(h, m);
        m := m + 1;
      }
      MulSucc(f, FrameSize(h));
      f := f + 1;
    }
  }

  /** Where the high-resolution payload begins: after `headerSize` bytes,
      and after the low-resolution thumbnail when one is declared. */
  function PayloadStart(h: Header): (r: nat)
    requires WellFormed(h)
    ensures FormatOfWord(h.lowResImageFormat) == NONE ==> r == h.headerSize
    ensures FormatOfWord(h.lowResImageFormat) != NONE ==>
      r - h.headerSize == ComputeImageSize(h.lowResImageWidth, h.lowResImageHeight, FormatOfWord(h.lowResImageFormat))
    ensures r >= h.headerSize
  {
    var low := FormatOfWord(h.lowResImageFormat);
    if low != NONE then
      h.headerSize + ComputeImageSize(h.lowResImageWidth, h.lowResImageHeight, low)
    else
      h.headerSize
  }
}

/** The block decompressors `DecompressDXT1` and `DecompressDXT5`: a pure,
    pixel-wise definition of the decoded raster, and the block loop of the
    decoder proved to produce it, writing every pixel exactly once and
    nothing past the raster. */
module BlockDecode {
  import opened Bytes
  import opened S3tc
  import opened VtfLayout
  import opened Raster

  /** Bytes of encoded data a `w` x `h` image occupies: one block per 4x4
      tile, partial tiles included. */
  function SourceBytes(fam: Family, w: nat, h: nat): nat {
    BlocksAcross(w) * BlocksAcross(h) * Stride(fam)
  }

  /** The decoders consume exactly `ComputeImageSize` bytes of their format. */
  lemma SourceBytesIsImageSize(w: nat, h: nat, f: VtfFormat.ImageFormat)
    ensures IsBc1(f) ==> SourceBytes(Bc1, w, h) == ComputeImageSize(w, h, f)
    ensures IsBc3(f) ==> SourceBytes(Bc3, w, h) == ComputeImageSize(w, h, f)
  {
  }

  /** Offset of block (`xb`, `yb`): blocks are stored row by row. */
  function BlockStart(fam: Family, w: nat, xb: nat, yb: nat): nat {
    (yb * BlocksAcross(w) + xb) * Stride(fam)
  }

  lemma BlockInSource(fam: Family, w: nat, h: nat, xb: nat, yb: nat)
    requires xb < BlocksAcross(w) && yb < BlocksAcross(h)
    ensures BlockStart(fam, w, xb, yb) + Stride(fam) <= SourceBytes(fam, w, h)
  {
    var bcx, bcy := BlocksAcross(w), BlocksAcross(h);
    assert yb * bcx + xb + 1 <= (yb + 1) * bcx;
    MulMono(yb + 1, bcy, bcx);
    MulMono(yb * bcx + xb + 1, bcy * bcx, Stride(fam));
  }

  lemma CoordInBlock(x: nat, w: nat)
    requires x < w
    ensures x / 4 < BlocksAcross(w)
  {
  }

  /** The encoded bytes of block (`xb`, `yb`). */
  function BlockBytes(fam: Family, src: seq<byte>, w: nat, h: nat, xb: nat, yb: nat): (b: seq<byte>)
    requires |src| >= SourceBytes(fam, w, h)
    requires xb < BlocksAcross(w) && yb < BlocksAcross(h)
    ensures |b| == Stride(fam)
  {
    BlockInSource(fam, w, h, xb, yb);
    src[BlockStart(fam, w, xb, yb)..BlockStart(fam, w, xb, yb) + Stride(fam)]
  }

  /** The decoded pixel at (`x`, `y`): texel `4 * (y % 4) + x % 4` of the
      block that covers it. */
  function DecodedPixel(fam: Family, src: seq<byte>, w: nat, h: nat, x: nat, y: nat): Rgba
    requires |src| >= SourceBytes(fam, w, h) && x < w && y < h
  {
    CoordInBlock(x, w);
    CoordInBlock(y, h);
    BlockTexel(fam, BlockBytes(fam, src, w, h, x / 4, y / 4), 4 * (y % 4) + x % 4)
  }

  /** Decoding reads nothing past `SourceBytes`: two sources that agree on
      that prefix decode to the same pixels. */
  lemma DecodedIsLocal(fam: Family, src: seq<byte>, src': seq<byte>, w: nat, h: nat, x: nat, y: nat)
    requires |src| >= SourceBytes(fam, w, h) && |src'| >= SourceBytes(fam, w, h)
    requires src[..SourceBytes(fam, w, h)] == src'[..SourceBytes(fam, w, h)]
    requires x < w && y < h
    ensures DecodedPixel(fam, src, w, h, x, y) == DecodedPixel(fam, src', w, h, x, y)
  {
    DecodedPixelAt(fam, src, w, h, x, y);
    DecodedPixelAt(fam, src', w, h, x, y);
    BlockBytesLocal(fam, src, src', w, h, x / 4, y / 4);
  }

  /** Every block lies within the first `SourceBytes` bytes. */
  lemma BlockBytesLocal(fam: Family, src: seq<byte>, src': seq<byte>, w: nat, h: nat, xb: nat, yb: nat)
    requires |src| >= SourceBytes(fam, w, h) && |src'| >= SourceBytes(fam, w, h)
    requires src[..SourceBytes(fam, w, h)] == src'[..SourceBytes(fam, w, h)]
    requires xb < BlocksAcross(w) && yb < BlocksAcross(h)
    ensures BlockBytes(fam, src, w, h, xb, yb) == BlockBytes(fam, src', w, h, xb, yb)
  {
    var n := SourceBytes(fam, w, h);
    BlockInSource(fam, w, h, xb, yb);
    var s := BlockStart(fam, w, xb, yb);
    assert src[s..s + Stride(fam)] == src[..n][s..s + Stride(fam)];
    assert src'[s..s + Stride(fam)] == src'[..n][s..s + Stride(fam)];
  }

  /** Every BC1 pixel is either opaque or fully transparent. */
  lemma Bc1AlphaIsBinary(src: seq<byte>, w: nat, h: nat, x: nat, y: nat)
    requires |src| >= SourceBytes(Bc1, w, h) && x < w && y < h
    ensures DecodedPixel(Bc1, src, w, h, x, y).a in {0, 255}
  {
    CoordInBlock(x, w);
    CoordInBlock(y, h);
    Bc1Transparency(BlockBytes(Bc1, src, w, h, x / 4, y / 4), 4 * (y % 4) + x % 4);
  }

  // ---------------------------------------------------------------------
  // The block loop

  /** Position of pixel (`x`, `y`) in the decoder's visiting order:
      blocks row by row, and within a block texels row by row. */
  function VisitOf(w: nat, x: nat, y: nat): nat {
    16 * ((y / 4) * BlocksAcross(w) + x / 4) + 4 * (y % 4) + x % 4
  }

  /** The loop position of texel (`px`, `py`) of block (`xb`, `yb`). */
  function Step(w: nat, xb: nat, yb: nat, px: nat, py: nat): nat {
    16 * (yb * BlocksAcross(w) + xb) + 4 * py + px
  }

  lemma VisitOfStep(w: nat, xb: nat, yb: nat, px: nat, py: nat, x: nat, y: nat)
    requires px < 4 && py < 4 && x == 4 * xb + px && y == 4 * yb + py
    ensures VisitOf(w, x, y) == Step(w, xb, yb, px, py)
  {
    assert x / 4 == xb && x % 4 == px;
    assert y / 4 == yb && y % 4 == py;
  }

  /** Two pixels that fit in the block grid are visited at different steps. */
  lemma {:induction false} VisitOfInjective(w: nat, x1: nat, y1: nat, x2: nat, y2: nat)
    requires x1 / 4 < BlocksAcross(w) && x2 / 4 < BlocksAcross(w)
    requires VisitOf(w, x1, y1) == VisitOf(w, x2, y2)
    ensures x1 == x2 && y1 == y2
  {
    var bcx := BlocksAcross(w);
    var v := VisitOf(w, x1, y1);
    var r1, r2 := 4 * (y1 % 4) + x1 % 4, 4 * (y2 % 4) + x2 % 4;
    DivUnique(v, 16, (y1 / 4) * bcx + x1 / 4, r1);
    DivUnique(v, 16, (y2 / 4) * bcx + x2 / 4, r2);
    DivUnique((y1 / 4) * bcx + x1 / 4, bcx, y1 / 4, x1 / 4);
    DivUnique((y2 / 4) * bcx + x2 / 4, bcx, y2 / 4, x2 / 4);
    DivUnique(r1, 4, y1 % 4, x1 % 4);
    DivUnique(r2, 4, y2 % 4, x2 % 4);
  }

  /** Every pixel is visited before the last step of the last block. */
  lemma VisitBound(w: nat, h: nat, x: nat, y: nat)
    requires x < w && y < h
    ensures VisitOf(w, x, y) < 16 * (BlocksAcross(h) * BlocksAcross(w))
  {
    CoordInBlock(x, w);
    CoordInBlock(y, h);
    var bcx, bcy := BlocksAcross(w), BlocksAcross(h);
    assert (y / 4) * bcx + x / 4 + 1 <= (y / 4 + 1) * bcx;
    MulMono(y / 4 + 1, bcy, bcx);
  }

  /** The only pixel visited at the step of texel (`px`, `py`) of block
      (`xb`, `yb`) is that texel, if it lies inside the image. */
  lemma StepHitsTexel(w: nat, h: nat, xb: nat, yb: nat, px: nat, py: nat, x: nat, y: nat)
    requires xb < BlocksAcross(w) && px < 4 && py < 4
    requires x < w && VisitOf(w, x, y) == Step(w, xb, yb, px, py)
    ensures x == 4 * xb + px && y == 4 * yb + py
  {
    CoordInBlock(x, w);
    VisitOfStep(w, xb, yb, px, py, 4 * xb + px, 4 * yb + py);
    VisitOfInjective(w, x, y, 4 * xb + px, 4 * yb + py);
  }

  lemma StepVisitsOnlyTexel(w: nat, h: nat, xb: nat, yb: nat, px: nat, py: nat)
    requires xb < BlocksAcross(w) && px < 4 && py < 4
    ensures forall x: nat, y: nat :: x < w && y < h && VisitOf(w, x, y) == Step(w, xb, yb, px, py) ==>
      x == 4 * xb + px && y == 4 * yb + py
  {
    forall x: nat, y: nat | x < w && y < h && VisitOf(w, x, y) == Step(w, xb, yb, px, py)
      ensures x == 4 * xb + px && y == 4 * yb + py
    {
      StepHitsTexel(w, h, xb, yb, px, py, x, y);
    }
  }

  /** The pixels visited in the first `k` steps hold their decoded
      values; the others hold what `dst` held. */
  ghost predicate PixelsDone(fam: Family, src: seq<byte>, w: nat, h: nat, dst: seq<byte>,
                             out: seq<byte>, k: nat)
    requires |src| >= SourceBytes(fam, w, h) && |dst| >= w * h * 4 && |out| >= w * h * 4
  {
    forall x: nat, y: nat {:trigger PixelIn(out, w, h, x, y)} :: x < w && y < h ==>
      PixelIn(out, w, h, x, y) ==
        if VisitOf(w, x, y) < k then DecodedPixel(fam, src, w, h, x, y) else PixelIn(dst, w, h, x, y)
  }

  /** `log` lists the pixels visited in the first `k` steps, each once. */
  ghost predicate LogDone(w: nat, h: nat, log: seq<(nat, nat)>, k: nat) {
    && (forall x: nat, y: nat {:trigger (x, y) in log} ::
          (x, y) in log ==> x < w && y < h && VisitOf(w, x, y) < k)
    && (forall x: nat, y: nat {:trigger VisitOf(w, x, y)} ::
          x < w && y < h && VisitOf(w, x, y) < k ==> (x, y) in log)
    && (forall a, b :: 0 <= a < b < |log| ==> log[a] != log[b])
  }

  /** Decoder state after `k` steps: the pixels visited so far hold their
      decoded values, every other byte still holds what `dst` held, and the
      ghost log lists each visited pixel once. */
  ghost predicate Written(fam: Family, src: seq<byte>, w: nat, h: nat, dst: seq<byte>,
                          out: seq<byte>, log: seq<(nat, nat)>, k: nat)
    requires |src| >= SourceBytes(fam, w, h) && |dst| >= w * h * 4
  {
    && |out| == |dst|
    && PixelsDone(fam, src, w, h, dst, out, k)
    && out[w * h * 4..] == dst[w * h * 4..]
    && LogDone(w, h, log, k)
  }

  /** A step that falls outside the image changes nothing. */
  lemma SkipStep(fam: Family, src: seq<byte>, w: nat, h: nat, dst: seq<byte>,
                 out: seq<byte>, log: seq<(nat, nat)>, k: nat)
    requires |src| >= SourceBytes(fam, w, h) && |dst| >= w * h * 4
    requires Written(fam, src, w, h, dst, out, log, k)
    requires forall x: nat, y: nat :: x < w && y < h ==> VisitOf(w, x, y) != k
    ensures Written(fam, src, w, h, dst, out, log, k + 1)
  {
    forall x: nat, y: nat | x < w && y < h ensures VisitOf(w, x, y) < k + 1 <==> VisitOf(w, x, y) < k {
    }
  }

  /** Storing the decoded value of the one pixel visited at step `k`. */
  lemma WriteStep(fam: Family, src: seq<byte>, w: nat, h: nat, dst: seq<byte>,
                  out: seq<byte>, log: seq<(nat, nat)>, k: nat, x0: nat, y0: nat, p: Rgba)
    requires |src| >= SourceBytes(fam, w, h) && |dst| >= w * h * 4
    requires Written(fam, src, w, h, dst, out, log, k)
    requires x0 < w && y0 < h && VisitOf(w, x0, y0) == k
    requires forall x: nat, y: nat :: x < w && y < h && VisitOf(w, x, y) == k ==> x == x0 && y == y0
    requires p == DecodedPixel(fam, src, w, h, x0, y0)
    ensures Written(fam, src, w, h, dst, Store(out, PixelOffset(w, h, x0, y0), p), log + [(x0, y0)], k + 1)
  {
    var out' := Store(out, PixelOffset(w, h, x0, y0), p);
    WriteStepPixels(fam, src, w, h, dst, out, k, x0, y0, p);
    assert out'[w * h * 4..] == out[w * h * 4..];
    WriteStepLog(w, h, log, k, x0, y0);
  }

  lemma WriteStepPixels(fam: Family, src: seq<byte>, w: nat, h: nat, dst: seq<byte>,
                        out: seq<byte>, k: nat, x0: nat, y0: nat, p: Rgba)
    requires |src| >= SourceBytes(fam, w, h) && |dst| >= w * h * 4 && |out| >= w * h * 4
    requires PixelsDone(fam, src, w, h, dst, out, k)
    requires x0 < w && y0 < h && VisitOf(w, x0, y0) == k
    requires forall x: nat, y: nat :: x < w && y < h && VisitOf(w, x, y) == k ==> x == x0 && y == y0
    requires p == DecodedPixel(fam, src, w, h, x0, y0)
    ensures PixelsDone(fam, src, w, h, dst, Store(out, PixelOffset(w, h, x0, y0), p), k + 1)
  {
    var out' := Store(out, PixelOffset(w, h, x0, y0), p);
    forall x: nat, y: nat | x < w && y < h
      ensures PixelIn(out', w, h, x, y) ==
        if VisitOf(w, x, y) < k + 1 then DecodedPixel(fam, src, w, h, x, y) else PixelIn(dst, w, h, x, y)
    {
      PixelAfterStore(out, w, h, x0, y0, p, x, y);
      assert PixelIn(out, w, h, x, y) ==
        if VisitOf(w, x, y) < k then DecodedPixel(fam, src, w, h, x, y) else PixelIn(dst, w, h, x, y);
    }
  }

  lemma WriteStepLog(w: nat, h: nat, log: seq<(nat, nat)>, k: nat, x0: nat, y0: nat)
    requires LogDone(w, h, log, k)
    requires x0 < w && y0 < h && VisitOf(w, x0, y0) == k
    requires forall x: nat, y: nat :: x < w && y < h && VisitOf(w, x, y) == k ==> x == x0 && y == y0
    ensures LogDone(w, h, log + [(x0, y0)], k + 1)
  {
    var log' := log + [(x0, y0)];
    forall x: nat, y: nat | (x, y) in log' ensures x < w && y < h && VisitOf(w, x, y) < k + 1 {
      if (x, y) != (x0, y0) {
        assert (x, y) in log;
      }
    }
    forall x: nat, y: nat | x < w && y < h && VisitOf(w, x, y) < k + 1 ensures (x, y) in log' {
      if VisitOf(w, x, y) < k {
        assert (x, y) in log;
      }
    }
    forall a, b | 0 <= a < b < |log'| ensures log'[a] != log'[b] {
      if b == |log| {
        var (xa, ya) := log[a];
        assert (xa, ya) in log;
      }
    }
  }

  /** `out` holds, row-major, the decoded `w` x `h` raster of `src`. */
  ghost predicate IsDecoded(fam: Family, src: seq<byte>, w: nat, h: nat, out: seq<byte>)
    requires |src| >= SourceBytes(fam, w, h) && |out| >= w * h * 4
  {
    forall x: nat, y: nat :: x < w && y < h ==>
      PixelIn(out, w, h, x, y) == DecodedPixel(fam, src, w, h, x, y)
  }

  /** The decoder loop shared by `DecompressDXT1` (`fam == Bc1`) and
      `DecompressDXT5` (`fam == Bc3`): every pixel of the `w` x `h` raster
      in `dst` receives its decoded value, and no byte past the raster is
      touched. `log` records the pixels in the order they are written. */
  method DecompressBlocks(fam: Family, src: seq<byte>, dst: seq<byte>, w: nat, h: nat)
    returns (out: seq<byte>, ghost log: seq<(nat, nat)>)
    requires |src| >= SourceBytes(fam, w, h)
    requires |dst| >= w * h * 4
    ensures |out| == |dst|
    ensures IsDecoded(fam, src, w, h, out)
    ensures out[w * h * 4..] == dst[w * h * 4..]
    ensures forall x: nat, y: nat :: (x, y) in log <==> x < w && y < h
    ensures forall a, b :: 0 <= a < b < |log| ==> log[a] != log[b]
  {
    var bcx, bcy := BlocksAcross(w), BlocksAcross(h);
    out, log := dst, [];
    var yb := 0;
    while yb < bcy
      invariant yb <= bcy
      invariant Written(fam, src, w, h, dst, out, log, 16 * (yb * bcx))
    {
      out, log := DecompressBlockRow(fam, src, dst, w, h, yb, out, log);
      yb := yb + 1;
    }
    AllVisited(fam, src, w, h, dst, out, log);
  }

  /** After the last block every pixel has been visited. */
  lemma AllVisited(fam: Family, src: seq<byte>, w: nat, h: nat, dst: seq<byte>,
                   out: seq<byte>, log: seq<(nat, nat)>)
    requires |src| >= SourceBytes(fam, w, h) && |dst| >= w * h * 4
    requires Written(fam, src, w, h, dst, out, log, 16 * (BlocksAcross(h) * BlocksAcross(w)))
    ensures |out| == |dst|
    ensures IsDecoded(fam, src, w, h, out)
    ensures out[w * h * 4..] == dst[w * h * 4..]
    ensures forall x: nat, y: nat :: (x, y) in log <==> x < w && y < h
    ensures forall a, b :: 0 <= a < b < |log| ==> log[a] != log[b]
  {
    forall x: nat, y: nat | x < w && y < h
      ensures PixelIn(out, w, h, x, y) == DecodedPixel(fam, src, w, h, x, y) && (x, y) in log
    {
      VisitBound(w, h, x, y);
    }
  }

  /** Block row `yb`, left to right. */
  method DecompressBlockRow(fam: Family, src: seq<byte>, dst: seq<byte>, w: nat, h: nat,
                            yb: nat, out0: seq<byte>, ghost log0: seq<(nat, nat)>)
    returns (out: seq<byte>, ghost log: seq<(nat, nat)>)
    requires |src| >= SourceBytes(fam, w, h) && |dst| >= w * h * 4
    requires yb < BlocksAcross(h)
    requires Written(fam, src, w, h, dst, out0, log0, 16 * (yb * BlocksAcross(w)))
    ensures Written(fam, src, w, h, dst, out, log, 16 * ((yb + 1) * BlocksAcross(w)))
  {
    var bcx := BlocksAcross(w);
    out, log := out0, log0;
    var xb := 0;
    while xb < bcx
      invariant xb <= bcx
      invariant Written(fam, src, w, h, dst, out, log, 16 * (yb * bcx + xb))
    {
      out, log := DecompressBlock(fam, src, dst, w, h, xb, yb, out, log);
      xb := xb + 1;
    }
    assert yb * bcx + bcx == (yb + 1) * bcx;
  }

  /** One 4x4 block: the palettes are built once, then the texel rows are
      visited top to bottom. */
  method DecompressBlock(fam: Family, src: seq<byte>, dst: seq<byte>, w: nat, h: nat,
                         xb: nat, yb: nat, out0: seq<byte>, ghost log0: seq<(nat, nat)>)
    returns (out: seq<byte>, ghost log: seq<(nat, nat)>)
    requires |src| >= SourceBytes(fam, w, h) && |dst| >= w * h * 4
    requires xb < BlocksAcross(w) && yb < BlocksAcross(h)
    requires Written(fam, src, w, h, dst, out0, log0, Step(w, xb, yb, 0, 0))
    ensures Written(fam, src, w, h, dst, out, log, Step(w, xb, yb, 0, 0) + 16)
  {
    var pal := PaletteOf(fam, BlockBytes(fam, src, w, h, xb, yb));
    out, log := out0, log0;
    var py := 0;
    while py < 4
      invariant py <= 4
      invariant Written(fam, src, w, h, dst, out, log, Step(w, xb, yb, 0, py))
    {
      out, log := DecompressTexelRow(fam, src, dst, w, h, xb, yb, py, pal, out, log);
      py := py + 1;
    }
  }

  /** Texel row `py` of a block, left to right. */
  method DecompressTexelRow(fam: Family, src: seq<byte>, dst: seq<byte>, w: nat, h: nat,
                            xb: nat, yb: nat, py: nat, pal: BlockPalette,
                            out0: seq<byte>, ghost log0: seq<(nat, nat)>)
    returns (out: seq<byte>, ghost log: seq<(nat, nat)>)
    requires |src| >= SourceBytes(fam, w, h) && |dst| >= w * h * 4
    requires xb < BlocksAcross(w) && yb < BlocksAcross(h) && py < 4
    requires pal == PaletteOf(fam, BlockBytes(fam, src, w, h, xb, yb))
    requires Written(fam, src, w, h, dst, out0, log0, Step(w, xb, yb, 0, py))
    ensures Written(fam, src, w, h, dst, out, log, Step(w, xb, yb, 0, py + 1))
  {
    out, log := out0, log0;
    var px := 0;
    while px < 4
      invariant px <= 4
      invariant Written(fam, src, w, h, dst, out, log, Step(w, xb, yb, px, py))
    {
      out, log := DecompressTexel(fam, src, dst, w, h, xb, yb, px, py, pal, out, log);
      px := px + 1;
    }
  }

  /** Texel (`px`, `py`) of block (`xb`, `yb`): stored at
      `((4 * yb + py) * w + 4 * xb + px) * 4` when it lies inside the image,
      skipped otherwise. */
  method DecompressTexel(fam: Family, src: seq<byte>, dst: seq<byte>, w: nat, h: nat,
                         xb: nat, yb: nat, px: nat, py: nat, pal: BlockPalette,
                         out0: seq<byte>, ghost log0: seq<(nat, nat)>)
    returns (out: seq<byte>, ghost log: seq<(nat, nat)>)
    requires |src| >= SourceBytes(fam, w, h) && |dst| >= w * h * 4
    requires xb < BlocksAcross(w) && yb < BlocksAcross(h) && px < 4 && py < 4
    requires pal == PaletteOf(fam, BlockBytes(fam, src, w, h, xb, yb))
    requires Written(fam, src, w, h, dst, out0, log0, Step(w, xb, yb, px, py))
    ensures Written(fam, src, w, h, dst, out, log, Step(w, xb, yb, px, py) + 1)
  {
    var x: nat, y: nat := 4 * xb + px, 4 * yb + py;
    if x < w && y < h {
      var pixel := PaletteTexel(pal, 4 * py + px);
      TexelStored(fam, src, dst, w, h, xb, yb, px, py, out0, log0, x, y, pixel);
      out, log := Store(out0, PixelOffset(w, h, x, y), pixel), log0 + [(x, y)];
    } else {
      out, log := out0, log0;
      TexelSkipped(fam, src, dst, w, h, xb, yb, px, py, out, log);
    }
  }

  /** Storing the texel looked up in the block palettes at pixel (`x`, `y`)
      completes step `Step(w, xb, yb, px, py)`. */
  lemma TexelStored(fam: Family, src: seq<byte>, dst: seq<byte>, w: nat, h: nat,
                    xb: nat, yb: nat, px: nat, py: nat, out: seq<byte>, log: seq<(nat, nat)>,
                    x: nat, y: nat, pixel: Rgba)
    requires |src| >= SourceBytes(fam, w, h) && |dst| >= w * h * 4
    requires xb < BlocksAcross(w) && yb < BlocksAcross(h) && px < 4 && py < 4
    requires x == 4 * xb + px && y == 4 * yb + py && x < w && y < h
    requires pixel == PaletteTexel(PaletteOf(fam, BlockBytes(fam, src, w, h, xb, yb)), 4 * py + px)
    requires Written(fam, src, w, h, dst, out, log, Step(w, xb, yb, px, py))
    ensures Written(fam, src, w, h, dst, Store(out, PixelOffset(w, h, x, y), pixel), log + [(x, y)],
                    Step(w, xb, yb, px, py) + 1)
  {
    TexelIsDecoded(fam, src, w, h, xb, yb, px, py, x, y, pixel);
    StepVisitsOnlyTexel(w, h, xb, yb, px, py);
    VisitOfStep(w, xb, yb, px, py, x, y);
    WriteStep(fam, src, w, h, dst, out, log, Step(w, xb, yb, px, py), x, y, pixel);
  }

  /** Looking texel (`px`, `py`) up in the palettes of block (`xb`, `yb`)
      yields the decoded pixel at (`4 * xb + px`, `4 * yb + py`). */
  lemma TexelIsDecoded(fam: Family, src: seq<byte>, w: nat, h: nat, xb: nat, yb: nat, px: nat, py: nat,
                       x: nat, y: nat, pixel: Rgba)
    requires |src| >= SourceBytes(fam, w, h)
    requires xb < BlocksAcross(w) && yb < BlocksAcross(h) && px < 4 && py < 4
    requires x == 4 * xb + px && y == 4 * yb + py && x < w && y < h
    requires pixel == PaletteTexel(PaletteOf(fam, BlockBytes(fam, src, w, h, xb, yb)), 4 * py + px)
    ensures pixel == DecodedPixel(fam, src, w, h, x, y)
  {
    DecodedPixelAt(fam, src, w, h, x, y);
    DivUnique(x, 4, xb, px);
    DivUnique(y, 4, yb, py);
    SameBlockTexel(fam, src, w, h, x / 4, y / 4, 4 * (y % 4) + x % 4, xb, yb, 4 * py + px);
    PaletteTexelIsBlockTexel(fam, BlockBytes(fam, src, w, h, xb, yb), 4 * py + px);
  }

  /** Equal block coordinates and texel index name the same texel. Stated
      separately so that callers close the argument by rewriting alone. */
  lemma SameBlockTexel(fam: Family, src: seq<byte>, w: nat, h: nat, xb: nat, yb: nat, t: nat, xb': nat, yb': nat, t': nat)
    requires |src| >= SourceBytes(fam, w, h)
    requires xb < BlocksAcross(w) && yb < BlocksAcross(h) && t < 16
    requires xb == xb' && yb == yb' && t == t'
    ensures BlockTexel(fam, BlockBytes(fam, src, w, h, xb, yb), t) == BlockTexel(fam, BlockBytes(fam, src, w, h, xb', yb'), t')
  {
  }

  /** One unfolding of `DecodedPixel`, with its block coordinates in range. */
  lemma DecodedPixelAt(fam: Family, src: seq<byte>, w: nat, h: nat, x: nat, y: nat)
    requires |src| >= SourceBytes(fam, w, h) && x < w && y < h
    ensures x / 4 < BlocksAcross(w) && y / 4 < BlocksAcross(h)
    ensures DecodedPixel(fam, src, w, h, x, y) ==
      BlockTexel(fam, BlockBytes(fam, src, w, h, x / 4, y / 4), 4 * (y % 4) + x % 4)
  {
    CoordInBlock(x, w);
    CoordInBlock(y, h);
  }

  /** A texel outside the image completes its step without a write. */
  lemma TexelSkipped(fam: Family, src: seq<byte>, dst: seq<byte>, w: nat, h: nat,
                     xb: nat, yb: nat, px: nat, py: nat, out: seq<byte>, log: seq<(nat, nat)>)
    requires |src| >= SourceBytes(fam, w, h) && |dst| >= w * h * 4
    requires xb < BlocksAcross(w) && px < 4 && py < 4
    requires !(4 * xb + px < w && 4 * yb + py < h)
    requires Written(fam, src, w, h, dst, out, log, Step(w, xb, yb, px, py))
    ensures Written(fam, src, w, h, dst, out, log, Step(w, xb, yb, px, py) + 1)
  {
    StepVisitsOnlyTexel(w, h, xb, yb, px, py);
    SkipStep(fam, src, w, h, dst, out, log, Step(w, xb, yb, px, py));
  }
}

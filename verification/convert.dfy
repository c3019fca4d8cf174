/** `ConvertToRGBA8888`: the uncompressed formats the viewer understands
    are rearranged into RGBA8888 pixel by pixel; every other format is
    painted magenta. Pixel `i` of the output occupies bytes `i * 4` to
    `i * 4 + 3`. */
module Convert {
  import opened Bytes
  import opened VtfFormat
  import opened S3tc
  import opened Raster

  /** Bytes per source pixel the converter reads: 4 for the 32-bit
      layouts it knows, 3 for the 24-bit ones, none for the rest. */
  function SourceStride(f: ImageFormat): nat {
    match f
    case RGBA8888 | BGRA8888 => 4
    case RGB888 | BGR888 => 3
    case _ => 0
  }

  /** The converter reads a format's source pixels at the width its
      bits-per-pixel entry gives. */
  lemma SourceStrideIsBpp(f: ImageFormat)
    ensures SourceStride(f) > 0 ==> SourceStride(f) * 8 == Bpp(f)
  {
  }

  /** The fill colour for a format the converter does not handle. */
  const MAGENTA := Rgba(255, 0, 255, 255)

  /** Pixel `i` of an `n`-pixel source of format `f`, as RGBA. */
  function ConvertedPixel(f: ImageFormat, src: seq<byte>, n: nat, i: nat): (r: Rgba)
    requires i < n && |src| >= n * SourceStride(f)
  {
    var s := SourceStride(f);
    MulMono(i + 1, n, s);
    match f
    case RGBA8888 => Load4(src, i * 4)
    case BGRA8888 => Rgba(src[i * 4 + 2], src[i * 4 + 1], src[i * 4], src[i * 4 + 3])
    case RGB888 => Rgba(src[i * 3], src[i * 3 + 1], src[i * 3 + 2], 255)
    case BGR888 => Rgba(src[i * 3 + 2], src[i * 3 + 1], src[i * 3], 255)
    case _ => MAGENTA
  }

  /** Red and blue exchanged. */
  function SwapRedBlue(p: Rgba): Rgba {
    Rgba(p.b, p.g, p.r, p.a)
  }

  lemma SwapRedBlueInvolution(p: Rgba)
    ensures SwapRedBlue(SwapRedBlue(p)) == p
    ensures SwapRedBlue(p) == p <==> p.r == p.b
  {
  }

  /** BGRA is RGBA with red and blue exchanged, and BGR is RGB with red and
      blue exchanged; the 24-bit layouts are always opaque. */
  lemma SwappedLayouts(src: seq<byte>, n: nat, i: nat)
    requires i < n
    ensures |src| >= n * 4 ==>
      ConvertedPixel(BGRA8888, src, n, i) == SwapRedBlue(ConvertedPixel(RGBA8888, src, n, i))
    ensures |src| >= n * 3 ==>
      ConvertedPixel(BGR888, src, n, i) == SwapRedBlue(ConvertedPixel(RGB888, src, n, i))
    ensures |src| >= n * 3 ==> ConvertedPixel(RGB888, src, n, i).a == 255
  {
  }

  /** Dropping the alpha of a converted 24-bit pixel gives back the three
      source bytes, red first for RGB888 and blue first for BGR888. */
  lemma OpaqueLayoutsLoseNothing(src: seq<byte>, n: nat, i: nat)
    requires i < n && |src| >= n * 3
    ensures var p := ConvertedPixel(RGB888, src, n, i);
      i * 3 + 3 <= |src| && [p.r, p.g, p.b] == src[i * 3..i * 3 + 3]
    ensures var q := ConvertedPixel(BGR888, src, n, i);
      i * 3 + 3 <= |src| && [q.b, q.g, q.r] == src[i * 3..i * 3 + 3]
  {
    MulMono(i + 1, n, 3);
  }

  /** Every format outside the four the converter knows comes out magenta,
      whatever the source holds. */
  lemma UnhandledIsMagenta(f: ImageFormat, src: seq<byte>, n: nat, i: nat)
    requires i < n
    ensures f !in {RGBA8888, BGRA8888, RGB888, BGR888} <==> SourceStride(f) == 0
    ensures SourceStride(f) == 0 ==> ConvertedPixel(f, src, n, i) == MAGENTA
  {
  }

  /** Pixel `i` depends on its own source bytes only. */
  lemma ConvertedIsLocal(f: ImageFormat, src: seq<byte>, src': seq<byte>, n: nat, i: nat)
    requires i < n && |src| >= n * SourceStride(f) && |src'| >= n * SourceStride(f)
    requires (MulMono(i + 1, n, SourceStride(f));
              src[i * SourceStride(f)..i * SourceStride(f) + SourceStride(f)]
                == src'[i * SourceStride(f)..i * SourceStride(f) + SourceStride(f)])
    ensures ConvertedPixel(f, src, n, i) == ConvertedPixel(f, src', n, i)
  {
    var s := SourceStride(f);
    MulMono(i + 1, n, s);
    if s > 0 {
      var a, a' := src[i * s..i * s + s], src'[i * s..i * s + s];
      assert forall k :: 0 <= k < s ==> a[k] == src[i * s + k] && a'[k] == src'[i * s + k];
    }
  }

  /** The RGBA8888 case is the `memcpy` of `n * 4` bytes. */
  lemma RgbaIsCopy(src: seq<byte>, out: seq<byte>, n: nat)
    requires |src| >= n * 4 && |out| >= n * 4
    requires forall i :: 0 <= i < n ==> Load4(out, i * 4) == ConvertedPixel(RGBA8888, src, n, i)
    ensures out[..n * 4] == src[..n * 4]
  {
    forall k | 0 <= k < n * 4 ensures out[k] == src[k] {
      var i := k / 4;
      assert k == i * 4 + k % 4;
      assert Load4(out, i * 4) == ConvertedPixel(RGBA8888, src, n, i);
    }
  }

  /** The pixels converted so far hold their converted values. */
  ghost predicate Converted(f: ImageFormat, src: seq<byte>, n: nat, out: seq<byte>, k: nat)
    requires k <= n && |src| >= n * SourceStride(f) && |out| >= n * 4
  {
    forall i {:trigger Load4(out, i * 4)} :: 0 <= i < k ==> Load4(out, i * 4) == ConvertedPixel(f, src, n, i)
  }

  /** `ConvertToRGBA8888(src, dst, w, h, f)`: pixel `i` of the `w * h`
      pixels is the converted source pixel `i`; bytes past the raster are
      left as `dst` held them. */
  method ConvertToRgba8888(src: seq<byte>, dst: seq<byte>, w: nat, h: nat, f: ImageFormat)
    returns (out: seq<byte>)
    requires |dst| >= w * h * 4 && |src| >= w * h * SourceStride(f)
    ensures |out| == |dst|
    ensures forall i :: 0 <= i < w * h ==> Load4(out, i * 4) == ConvertedPixel(f, src, w * h, i)
    ensures out[w * h * 4..] == dst[w * h * 4..]
  {
    var n := w * h;
    out := dst;
    var i := 0;
    while i < n
      invariant i <= n && |out| == |dst|
      invariant Converted(f, src, n, out, i)
      invariant out[n * 4..] == dst[n * 4..]
    {
      out := ConvertStep(f, src, n, out, i);
      i := i + 1;
    }
  }

  /** One pixel of the conversion loop. */
  method ConvertStep(f: ImageFormat, src: seq<byte>, n: nat, out0: seq<byte>, i: nat)
    returns (out: seq<byte>)
    requires i < n && |src| >= n * SourceStride(f) && |out0| >= n * 4
    requires Converted(f, src, n, out0, i)
    ensures |out| == |out0| && Converted(f, src, n, out, i + 1)
    ensures out[n * 4..] == out0[n * 4..]
  {
    var p := ConvertedPixel(f, src, n, i);
    out := Store(out0, i * 4, p);
    forall j | 0 <= j < i + 1 ensures Load4(out, j * 4) == ConvertedPixel(f, src, n, j) {
      if j < i {
        LoadElsewhere(out0, i * 4, p, j * 4);
      }
    }
    StoreKeepsTail(out0, i * 4, p, n * 4);
  }
}

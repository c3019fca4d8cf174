/** The RGBA8888 raster every decoder writes: pixel (`x`, `y`) of a
    `w` x `h` image occupies the four bytes at `4 * (y * w + x)`, in the
    order red, green, blue, alpha. */
module Raster {
  import opened Bytes
  import opened S3tc

  lemma PixelInRaster(x: nat, y: nat, w: nat, h: nat)
    requires x < w && y < h
    ensures y * w + x < w * h
  {
    MulMono(y + 1, h, w);
  }

  lemma PixelIndexInjective(w: nat, x1: nat, y1: nat, x2: nat, y2: nat)
    requires x1 < w && x2 < w && y1 * w + x1 == y2 * w + x2
    ensures x1 == x2 && y1 == y2
  {
    DivUnique(y1 * w + x1, w, y1, x1);
    DivUnique(y2 * w + x2, w, y2, x2);
  }

  /** `y * width + x`: the row-major index of pixel (`x`, `y`). */
  function PixelIndex(w: nat, h: nat, x: nat, y: nat): (i: nat)
    requires x < w && y < h
    ensures i < w * h
  {
    PixelInRaster(x, y, w, h);
    y * w + x
  }

  /** `(y * width + x) * 4`, where the decoders store pixel (`x`, `y`). */
  function PixelOffset(w: nat, h: nat, x: nat, y: nat): (o: nat)
    requires x < w && y < h
    ensures o + 4 <= w * h * 4
  {
    PixelIndex(w, h, x, y) * 4
  }

  /** The pixel stored in the four bytes at `o`. */
  function Load4(s: seq<byte>, o: nat): Rgba
    requires o + 4 <= |s|
  {
    Rgba(s[o], s[o + 1], s[o + 2], s[o + 3])
  }

  function PixelIn(s: seq<byte>, w: nat, h: nat, x: nat, y: nat): Rgba
    requires |s| >= w * h * 4 && x < w && y < h
  {
    Load4(s, PixelOffset(w, h, x, y))
  }

  /** `s` with the four bytes at `o` set to `p`. */
  function Store(s: seq<byte>, o: nat, p: Rgba): (r: seq<byte>)
    requires o + 4 <= |s|
    ensures |r| == |s| && Load4(r, o) == p
    ensures forall i :: 0 <= i < |s| && !(o <= i < o + 4) ==> r[i] == s[i]
  {
    s[o := p.r][o + 1 := p.g][o + 2 := p.b][o + 3 := p.a]
  }

  /** Storing one pixel leaves every other pixel as it was. */
  lemma PixelAfterStore(s: seq<byte>, w: nat, h: nat, x0: nat, y0: nat, p: Rgba, x: nat, y: nat)
    requires |s| >= w * h * 4 && x0 < w && y0 < h && x < w && y < h
    ensures PixelIn(Store(s, PixelOffset(w, h, x0, y0), p), w, h, x, y) ==
      if x == x0 && y == y0 then p else PixelIn(s, w, h, x, y)
  {
    if x != x0 || y != y0 {
      if y * w + x == y0 * w + x0 {
        PixelIndexInjective(w, x, y, x0, y0);
      }
    }
  }

  /** A raster is determined by its pixels and the bytes past them. */
  lemma RasterDeterminedByPixels(a: seq<byte>, b: seq<byte>, w: nat, h: nat)
    requires |a| == |b| >= w * h * 4
    requires forall x: nat, y: nat :: x < w && y < h ==> PixelIn(a, w, h, x, y) == PixelIn(b, w, h, x, y)
    requires a[w * h * 4..] == b[w * h * 4..]
    ensures a == b
  {
    forall i | 0 <= i < |a| ensures a[i] == b[i] {
      if i < w * h * 4 {
        var x, y := PixelOfByte(i, w, h);
        assert PixelIn(a, w, h, x, y) == PixelIn(b, w, h, x, y);
      } else {
        assert a[i] == a[w * h * 4..][i - w * h * 4];
      }
    }
  }

  /** The pixel whose four bytes hold byte `i` of the raster. */
  lemma PixelOfByte(i: nat, w: nat, h: nat) returns (x: nat, y: nat)
    requires i < w * h * 4
    ensures x < w && y < h
    ensures PixelOffset(w, h, x, y) <= i < PixelOffset(w, h, x, y) + 4
  {
    var q := i / 4;
    assert q < w * h;
    x, y := q % w, q / w;
    assert q == y * w + x && x < w by {
      DivUnique(q, w, q / w, q % w);
    }
    if y >= h {
      MulMono(h, y, w);
    }
  }

  /** Storing four bytes leaves every disjoint four-byte group as it was. */
  lemma LoadElsewhere(s: seq<byte>, o: nat, p: Rgba, o': nat)
    requires o + 4 <= |s| && o' + 4 <= |s|
    requires o' + 4 <= o || o + 4 <= o'
    ensures Load4(Store(s, o, p), o') == Load4(s, o')
  {
  }

  /** Storing below `t` leaves the bytes from `t` on as they were. */
  lemma StoreKeepsTail(s: seq<byte>, o: nat, p: Rgba, t: nat)
    requires o + 4 <= t <= |s|
    ensures Store(s, o, p)[t..] == s[t..]
  {
    var r := Store(s, o, p);
    assert forall i :: 0 <= i < |s| - t ==> r[t..][i] == r[t + i] == s[t + i] == s[t..][i];
  }
}

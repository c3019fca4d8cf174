/** Octets, optional values, powers of two and little-endian integer fields:
    the vocabulary shared by the texture decoder and the material parser. */
module Bytes {

  /** An octet as it appears in a file or in an RGBA8888 raster. */
  type byte = b: int | 0 <= b < 256

  /** A value that may be absent; stands in for a null pointer or a null image. */
  datatype Option<+T> = None | Some(value: T)

  function Pow2(n: nat): (r: nat)
    ensures r >= 1
  {
    if n == 0 then 1 else 2 * Pow2(n - 1)
  }

  function Pow256(n: nat): (r: nat)
    ensures r >= 1
  {
    if n == 0 then 1 else 256 * Pow256(n - 1)
  }

  /** The unsigned integer stored little-endian in `s` (a host-endian struct
      field read on a little-endian machine). */
  function DecodeLE(s: seq<byte>): (r: nat)
    ensures r < Pow256(|s|)
  {
    if |s| == 0 then 0 else s[0] + 256 * DecodeLE(s[1..])
  }

  /** The `n` low-order bytes of `v`, least significant first. */
  function EncodeLE(v: nat, n: nat): (r: seq<byte>)
    ensures |r| == n
  {
    if n == 0 then [] else [v % 256] + EncodeLE(v / 256, n - 1)
  }

  lemma {:induction false} DecodeEncodeLE(v: nat, n: nat)
    requires v < Pow256(n)
    ensures DecodeLE(EncodeLE(v, n)) == v
  {
    if n > 0 {
      var e := EncodeLE(v, n);
      assert e[1..] == EncodeLE(v / 256, n - 1);
      DecodeEncodeLE(v / 256, n - 1);
    }
  }

  /** Two numbers below `256^n` with the same encoding are equal. */
  lemma EncodeLEInjective(a: nat, b: nat, n: nat)
    requires a < Pow256(n) && b < Pow256(n)
    requires EncodeLE(a, n) == EncodeLE(b, n)
    ensures a == b
  {
    DecodeEncodeLE(a, n);
    DecodeEncodeLE(b, n);
  }

  lemma {:induction false} EncodeDecodeLE(s: seq<byte>)
    ensures EncodeLE(DecodeLE(s), |s|) == s
  {
    if |s| > 0 {
      var d := DecodeLE(s[1..]);
      assert (s[0] + 256 * d) % 256 == s[0];
      assert (s[0] + 256 * d) / 256 == d;
      EncodeDecodeLE(s[1..]);
    }
  }

  /** The `width`-bit field starting at bit `off` of `v`: `(v >> off) & (2^width - 1)`. */
  function Bits(v: nat, off: nat, width: nat): (r: nat)
    ensures r < Pow2(width)
  {
    (v / Pow2(off)) % Pow2(width)
  }

  /** Division has a unique quotient. */
  lemma DivUnique(a: nat, d: nat, q: nat, r: nat)
    requires 0 <= r < d
    requires a == q * d + r
    ensures a / d == q && a % d == r
  {
    var q', r' := a / d, a % d;
    assert a == q' * d + r';
    if q' < q {
      MulMono(q' + 1, q, d);
    } else if q < q' {
      MulMono(q + 1, q', d);
    }
  }

  lemma MulMono(a: nat, b: nat, d: nat)
    requires a <= b
    ensures a * d <= b * d
  {
  }

  /** Shifting right by `m + 1` is shifting by `m` and then by one more bit. */
  lemma {:induction false} ShiftCompose(d: nat, m: nat)
    ensures d / Pow2(m + 1) == (d / Pow2(m)) / 2
  {
    var p := Pow2(m);
    var q, r := d / p, d % p;
    assert d == (q / 2) * (2 * p) + ((q % 2) * p + r);
    assert (q % 2) * p + r < 2 * p;
    DivUnique(d, 2 * p, q / 2, (q % 2) * p + r);
  }

  /** `1 << (a + b)` is `(1 << a) << b`. */
  lemma {:induction false} Pow2Add(a: nat, b: nat)
    ensures Pow2(a + b) == Pow2(a) * Pow2(b)
    decreases b
  {
    if b > 0 {
      Pow2Add(a, b - 1);
      assert Pow2(a + b) == 2 * (Pow2(a) * Pow2(b - 1));
    }
  }
}

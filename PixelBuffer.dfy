/** The flat RGBA8 buffer the effects work on: `width * height` pixels in
    row-major order, four interleaved bytes (R, G, B, A) per pixel, pixel k
    at byte offset 4 * k. */
module PixelBuffer {
  import opened Permutations

  /** One 8-bit channel value (Swift `UInt8`). */
  type Byte = b: int | 0 <= b < 256

  datatype Pixel = Pixel(r: Byte, g: Byte, b: Byte, a: Byte)

  /** The length a buffer of the given dimensions has when read from an image. */
  predicate IsBuffer(s: seq<Byte>, width: nat, height: nat)
  {
    |s| == width * height * 4
  }

  /** The pixel whose four bytes start at offset 4 * k. */
  function PixelAt(s: seq<Byte>, k: nat): Pixel
    requires 4 * k + 4 <= |s|
  {
    Pixel(s[4 * k], s[4 * k + 1], s[4 * k + 2], s[4 * k + 3])
  }

  /** The buffer read as a sequence of whole pixels. */
  function Pixels(s: seq<Byte>): (p: seq<Pixel>)
    ensures |p| == |s| / 4
  {
    seq(|s| / 4, k requires 0 <= k < |s| / 4 => PixelAt(s, k))
  }

  /** Channel c (0 = R, 1 = G, 2 = B, 3 = A) of a pixel. */
  function Channel(px: Pixel, c: nat): Byte
    requires c < 4
  {
    if c == 0 then px.r else if c == 1 then px.g else if c == 2 then px.b else px.a
  }

  /** Lays pixels out as bytes, four per pixel. */
  function Flatten(p: seq<Pixel>): (s: seq<Byte>)
    ensures |s| == 4 * |p|
  {
    if p == [] then []
    else
      var last := p[|p| - 1];
      Flatten(p[..|p| - 1]) + [last.r, last.g, last.b, last.a]
  }

  lemma {:induction false} FlattenAt(p: seq<Pixel>, k: nat, c: nat)
    requires k < |p| && c < 4
    ensures Flatten(p)[4 * k + c] == Channel(p[k], c)
    decreases |p|
  {
    if k < |p| - 1 {
      FlattenAt(p[..|p| - 1], k, c);
    }
  }

  /** Reading a laid-out pixel sequence back gives the same pixels. */
  lemma PixelsOfFlatten(p: seq<Pixel>)
    ensures Pixels(Flatten(p)) == p
  {
    forall k | 0 <= k < |p| ensures Pixels(Flatten(p))[k] == p[k] {
      FlattenAt(p, k, 0);
      FlattenAt(p, k, 1);
      FlattenAt(p, k, 2);
      FlattenAt(p, k, 3);
    }
  }

  /** A buffer of whole pixels is determined by its pixels: bytes never get
      separated from their pixel. */
  lemma FlattenOfPixels(s: seq<Byte>)
    requires |s| % 4 == 0
    ensures Flatten(Pixels(s)) == s
  {
    var p := Pixels(s);
    forall b | 0 <= b < |s| ensures Flatten(p)[b] == s[b] {
      FlattenAt(p, b / 4, b % 4);
    }
  }

  /** A buffer of n pixels is a buffer of whole pixels. */
  lemma WholePixels(s: seq<Byte>, n: nat)
    requires |s| == 4 * n
    ensures |s| % 4 == 0 && |s| / 4 == n
  {
  }

  /** The buffer with pixel k overwritten by px. */
  function SetPixel(s: seq<Byte>, k: nat, px: Pixel): (r: seq<Byte>)
    requires 4 * k + 4 <= |s|
    ensures |r| == |s|
  {
    s[..4 * k] + [px.r, px.g, px.b, px.a] + s[4 * k + 4..]
  }

  /** Writing the four bytes of pixel k changes pixel k and no other pixel. */
  lemma PixelsSetPixel(s: seq<Byte>, k: nat, px: Pixel)
    requires 4 * k + 4 <= |s|
    ensures Pixels(SetPixel(s, k, px)) == Pixels(s)[k := px]
  {
    var r := SetPixel(s, k, px);
    forall m | 0 <= m < |s| / 4 ensures PixelAt(r, m) == Pixels(s)[k := px][m] {
      if m < k {
        assert 4 * m + 4 <= 4 * k;
      } else if m > k {
        assert 4 * m >= 4 * k + 4;
      }
    }
  }

  /** Writing the next value of a scatter as the four bytes of its pixel
      extends the scatter by one position. */
  lemma ScatterPixelStep(p0: seq<Pixel>, before: seq<Byte>, idx: seq<nat>, v: seq<Pixel>, j: nat)
    requires |idx| == |v| && IndicesBelow(idx, |p0|) && j < |idx| && |before| == 4 * |p0|
    requires Pixels(before) == Scatter(p0, idx[..j], v[..j])
    ensures Pixels(SetPixel(before, idx[j], v[j])) == Scatter(p0, idx[..j + 1], v[..j + 1])
  {
    PixelsSetPixel(before, idx[j], v[j]);
    ScatterPrefixStep(p0, idx, v, j);
  }

  /** Copies pixel i of src byte by byte into pixel j of dst (lines like
      `dst[j * 4 + c] = src[i * 4 + c]` for c in 0..<4). */
  method CopyPixel(src: array<Byte>, i: nat, dst: array<Byte>, j: nat)
    requires src != dst
    requires 4 * i + 4 <= src.Length && 4 * j + 4 <= dst.Length
    modifies dst
    ensures dst[..] == SetPixel(old(dst[..]), j, PixelAt(src[..], i))
  {
    for c := 0 to 4
      invariant forall b :: 0 <= b < dst.Length ==>
        dst[b] == if 4 * j <= b < 4 * j + c then src[b - 4 * j + 4 * i] else old(dst[b])
    {
      dst[4 * j + c] := src[4 * i + c];
    }
    assert dst[..] == SetPixel(old(dst[..]), j, PixelAt(src[..], i));
  }

  /** The buffer after the first c channels of pixels i and j have been exchanged. */
  function PartlySwapped(s: seq<Byte>, i: nat, j: nat, c: nat): (r: seq<Byte>)
    requires 4 * i + 4 <= |s| && 4 * j + 4 <= |s| && c <= 4
    ensures |r| == |s|
  {
    seq(|s|, b requires 0 <= b < |s| =>
      if 4 * i <= b < 4 * i + c then s[b - 4 * i + 4 * j]
      else if 4 * j <= b < 4 * j + c then s[b - 4 * j + 4 * i]
      else s[b])
  }

  /** One more `swapAt` exchanges one more channel. */
  lemma PartlySwappedStep(s: seq<Byte>, i: nat, j: nat, c: nat)
    requires 4 * i + 4 <= |s| && 4 * j + 4 <= |s| && c < 4
    ensures Swap(PartlySwapped(s, i, j, c), 4 * i + c, 4 * j + c) == PartlySwapped(s, i, j, c + 1)
  {
  }

  /** Exchanging all four channels exchanges the two pixels. */
  lemma PartlySwappedAll(s: seq<Byte>, i: nat, j: nat)
    requires 4 * i + 4 <= |s| && 4 * j + 4 <= |s|
    ensures Pixels(PartlySwapped(s, i, j, 4)) == Swap(Pixels(s), i, j)
  {
    var t := PartlySwapped(s, i, j, 4);
    forall m | 0 <= m < |s| / 4 ensures Pixels(t)[m] == Swap(Pixels(s), i, j)[m] {
      assert PixelAt(t, m) == Pixel(t[4 * m], t[4 * m + 1], t[4 * m + 2], t[4 * m + 3]);
    }
  }

  /** Exchanges pixels i and j byte by byte with four `swapAt` calls. */
  method SwapPixels(a: array<Byte>, i: nat, j: nat)
    requires 4 * i + 4 <= a.Length && 4 * j + 4 <= a.Length
    modifies a
    ensures Pixels(a[..]) == Swap(Pixels(old(a[..])), i, j)
  {
    ghost var s := a[..];
    for c := 0 to 4
      invariant a[..] == PartlySwapped(s, i, j, c)
    {
      a[4 * i + c], a[4 * j + c] := a[4 * j + c], a[4 * i + c];
      PartlySwappedStep(s, i, j, c);
    }
    PartlySwappedAll(s, i, j);
  }

  /** A fresh array holding the bytes of s (the working copy `var pixels = pixelData`). */
  method ToArray(s: seq<Byte>) returns (a: array<Byte>)
    ensures fresh(a) && a[..] == s
  {
    a := new Byte[|s|](k requires 0 <= k < |s| => s[k]);
  }
}

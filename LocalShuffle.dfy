/** The local shuffle effect: every pixel, visited in raster order, is
    exchanged with a pixel a small random displacement away, the target being
    clamped to the image. The displacement drawn for pixel i (the truncated
    products of two normal deviates with the spread) is an input: offsets[i]. */
module LocalShuffle {
  import opened Permutations
  import opened PixelBuffer
  import opened BlockGrid

  function Min(a: int, b: int): int
  {
    if a <= b then a else b
  }

  function Max(a: int, b: int): int
  {
    if a >= b then a else b
  }

  /** v limited to lo..hi, written as `max(lo, min(hi, v))`. */
  function Clamp(lo: int, hi: int, v: int): (r: int)
    requires lo <= hi
    ensures lo <= r <= hi
    ensures lo <= v <= hi ==> r == v
  {
    Max(lo, Min(hi, v))
  }

  /** The clamped value is the point of lo..hi nearest to v. */
  lemma ClampNearest(lo: int, hi: int, v: int, u: int)
    requires lo <= hi && lo <= u <= hi
    ensures var r := Clamp(lo, hi, v); (if r <= v then v - r else r - v) <= (if u <= v then v - u else u - v)
  {
  }

  /** The index pixel i is exchanged with when its displacement is offset:
      column and row are moved by the offset and clamped to the image. */
  function LocalTarget(width: nat, height: nat, i: nat, offset: (int, int)): (t: nat)
    requires i < width * height
    ensures t < width * height
  {
    Coords(i, width, height);
    var x, y := i % width, i / width;
    var newX := Clamp(0, width - 1, x + offset.0);
    var newY := Clamp(0, height - 1, y + offset.1);
    OffsetBound(width, height, newX, newY);
    Offset(width, newX, newY)
  }

  /** The target lies at the clamped column and row, both inside the image. */
  lemma LocalTargetCoords(width: nat, height: nat, i: nat, offset: (int, int))
    requires i < width * height
    ensures 0 < width && i % width < width && i / width < height
    ensures var t := LocalTarget(width, height, i, offset);
      t % width == Clamp(0, width - 1, i % width + offset.0) &&
      t / width == Clamp(0, height - 1, i / width + offset.1)
  {
    Coords(i, width, height);
    OffsetCoords(width, Clamp(0, width - 1, i % width + offset.0), Clamp(0, height - 1, i / width + offset.1));
  }

  /** The target as the loop computes it: the clamped row times the width plus the clamped column. */
  lemma LocalTargetFormula(width: nat, height: nat, i: nat, offset: (int, int))
    requires i < width * height
    ensures 0 < width
    ensures LocalTarget(width, height, i, offset) ==
      Max(0, Min(height - 1, i / width + offset.1)) * width + Max(0, Min(width - 1, i % width + offset.0))
  {
    Coords(i, width, height);
  }

  /** A displacement that stays inside the image is taken as it is. */
  lemma LocalTargetInside(width: nat, height: nat, i: nat, offset: (int, int))
    requires i < width * height
    requires 0 <= i % width + offset.0 < width && 0 <= i / width + offset.1 < height
    ensures LocalTarget(width, height, i, offset) == Offset(width, i % width + offset.0, i / width + offset.1)
  {
    Coords(i, width, height);
  }

  /** A zero displacement exchanges the pixel with itself. */
  lemma LocalTargetZero(width: nat, height: nat, i: nat)
    requires i < width * height
    ensures LocalTarget(width, height, i, (0, 0)) == i
  {
    Coords(i, width, height);
  }

  /** The exchanges of the pass, pixel 0 first. */
  function LocalSwaps(width: nat, height: nat, offsets: seq<(int, int)>): (r: seq<(nat, nat)>)
    requires |offsets| == width * height
    ensures |r| == |offsets| && SwapsWithin(r, |offsets|)
    ensures forall i :: 0 <= i < |r| ==> r[i].0 == i
  {
    seq(|offsets|, i requires 0 <= i < |offsets| => (i, LocalTarget(width, height, i, offsets[i])))
  }

  /** The exchange made for pixel i extends the first i exchanges. */
  lemma LocalSwapsStep(width: nat, height: nat, offsets: seq<(int, int)>, i: nat)
    requires |offsets| == width * height && i < |offsets|
    ensures var swaps := LocalSwaps(width, height, offsets);
      swaps[..i + 1] == swaps[..i] + [(i, LocalTarget(width, height, i, offsets[i]))]
  {
    var swaps := LocalSwaps(width, height, offsets);
    assert swaps[i] == (i, LocalTarget(width, height, i, offsets[i]));
    assert swaps[..i + 1] == swaps[..i] + [swaps[i]];
  }

  /** The spread in pixels: the spread option scaled by a quarter of the longer side. */
  function EffectiveSpread(spread: real, width: nat, height: nat): real
  {
    spread * (Max(width, height) as real) / 4.0
  }

  /** One iteration of the loop: pixel i is exchanged with the pixel at the
      clamped displaced position. */
  method DisplacePixel(pixels: array<Byte>, width: nat, height: nat, i: nat, offset: (int, int))
    requires i < width * height && pixels.Length == 4 * (width * height)
    modifies pixels
    ensures Pixels(pixels[..]) == Swap(Pixels(old(pixels[..])), i, LocalTarget(width, height, i, offset))
  {
    LocalTargetFormula(width, height, i, offset);
    var x := i % width;
    var y := i / width;
    var newX := Max(0, Min(width - 1, x + offset.0));
    var newY := Max(0, Min(height - 1, y + offset.1));
    var newIdx := newY * width + newX;
    assert newIdx < width * height;
    SwapPixels(pixels, i, newIdx);
  }

  /** The loop over pixel indices 0 ..< width * height on the working copy. */
  method DisplacePixels(pixels: array<Byte>, width: nat, height: nat, offsets: seq<(int, int)>)
    requires |offsets| == width * height && pixels.Length == 4 * |offsets|
    modifies pixels
    ensures Pixels(pixels[..]) == SwapAll(Pixels(old(pixels[..])), LocalSwaps(width, height, offsets))
  {
    ghost var p0 := Pixels(pixels[..]);
    ghost var swaps := LocalSwaps(width, height, offsets);
    var pixelCount := |offsets|;
    for i := 0 to pixelCount
      invariant Pixels(pixels[..]) == SwapAll(p0, swaps[..i])
    {
      DisplacePixel(pixels, width, height, i, offsets[i]);
      LocalSwapsStep(width, height, offsets, i);
      SwapAllSnoc(p0, swaps[..i], i, LocalTarget(width, height, i, offsets[i]));
    }
    assert swaps[..pixelCount] == swaps;
  }

  /** The displaced image: unchanged when the spread is not positive, and
      otherwise the pixels after every exchange of the pass. */
  method LocalShuffle(pixelData: seq<Byte>, width: nat, height: nat, spread: real, offsets: seq<(int, int)>)
    returns (result: seq<Byte>)
    requires IsBuffer(pixelData, width, height) && |offsets| == width * height
    ensures IsBuffer(result, width, height)
    ensures EffectiveSpread(spread, width, height) <= 0.0 ==> result == pixelData
    ensures EffectiveSpread(spread, width, height) > 0.0 ==>
      result == Flatten(SwapAll(Pixels(pixelData), LocalSwaps(width, height, offsets)))
    ensures multiset(Pixels(result)) == multiset(Pixels(pixelData))
  {
    var s := spread * (Max(width, height) as real) / 4.0;
    if !(s > 0.0) {
      return pixelData;
    }
    var pixels := ToArray(pixelData);
    DisplacePixels(pixels, width, height, offsets);
    result := pixels[..];
    WholePixels(result, |offsets|);
    FlattenOfPixels(result);
  }

  /** With every displacement zero the pass leaves the image as it was. */
  lemma ZeroOffsetsUnchanged(pixelData: seq<Byte>, width: nat, height: nat, offsets: seq<(int, int)>)
    requires IsBuffer(pixelData, width, height) && |offsets| == width * height
    requires forall i :: 0 <= i < |offsets| ==> offsets[i] == (0, 0)
    ensures Flatten(SwapAll(Pixels(pixelData), LocalSwaps(width, height, offsets))) == pixelData
  {
    var swaps := LocalSwaps(width, height, offsets);
    forall i | 0 <= i < |swaps| ensures swaps[i].0 == swaps[i].1 {
      LocalTargetZero(width, height, i);
    }
    assert |Pixels(pixelData)| == |offsets|;
    SwapAllDiagonal(Pixels(pixelData), swaps);
    WholePixels(pixelData, |offsets|);
    FlattenOfPixels(pixelData);
  }
}

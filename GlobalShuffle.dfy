/** The global shuffle effect: one Fisher–Yates pass over the pixel indices of
    the whole working buffer, exchanging whole four-byte pixels. The random
    draw `Int.random(in: 0...i)` made at index i is an input: draws[i]. */
module GlobalShuffle {
  import opened Permutations
  import opened PixelBuffer

  /** One draw j with 0 <= j <= i for every index i the loop visits
      (i = pixelCount - 1 down to 1); draws[0] is never used. */
  predicate ValidDraws(draws: seq<nat>, pixelCount: nat)
  {
    |draws| == pixelCount && forall i :: 0 < i < pixelCount ==> draws[i] <= i
  }

  /** The swaps the loop performs, in the order it performs them. */
  function FisherYatesSwaps(draws: seq<nat>): (r: seq<(nat, nat)>)
    requires ValidDraws(draws, |draws|)
    ensures SwapsWithin(r, |draws|)
    ensures |draws| <= 1 ==> r == []
    ensures |draws| > 1 ==> |r| == |draws| - 1
    ensures forall k :: 0 <= k < |r| ==> r[k].0 == |draws| - 1 - k && r[k].1 <= r[k].0
  {
    if |draws| <= 1 then []
    else seq(|draws| - 1, k requires 0 <= k < |draws| - 1 => (|draws| - 1 - k, draws[|draws| - 1 - k]))
  }

  /** The swap made when the loop is at index |draws| - 1 - k extends the first k swaps. */
  lemma FisherYatesStep(draws: seq<nat>, k: nat)
    requires ValidDraws(draws, |draws|) && k + 1 < |draws|
    ensures var swaps := FisherYatesSwaps(draws);
      k < |swaps| && swaps[..k + 1] == swaps[..k] + [(|draws| - 1 - k, draws[|draws| - 1 - k])]
  {
    var swaps := FisherYatesSwaps(draws);
    assert swaps[k] == (|draws| - 1 - k, draws[|draws| - 1 - k]);
    assert swaps[..k + 1] == swaps[..k] + [swaps[k]];
  }

  /** The Fisher–Yates loop over the working copy: for i from pixelCount - 1
      down to 1, exchange pixel i with pixel draws[i]. */
  method ShufflePixels(pixels: array<Byte>, draws: seq<nat>)
    requires pixels.Length == 4 * |draws| && ValidDraws(draws, |draws|)
    modifies pixels
    ensures Pixels(pixels[..]) == SwapAll(Pixels(old(pixels[..])), FisherYatesSwaps(draws))
  {
    ghost var p0 := Pixels(pixels[..]);
    ghost var swaps := FisherYatesSwaps(draws);
    var i := |draws| - 1;
    ghost var k: nat := 0;
    while i >= 1
      invariant i == |draws| - 1 - k && k <= |swaps|
      invariant Pixels(pixels[..]) == SwapAll(p0, swaps[..k])
    {
      var j := draws[i];
      SwapPixels(pixels, i, j);
      FisherYatesStep(draws, k);
      SwapAllSnoc(p0, swaps[..k], i, j);
      i := i - 1;
      k := k + 1;
    }
    assert swaps[..k] == swaps;
  }

  /** The shuffled buffer: the pixels after every swap of the pass, laid out as bytes. */
  method GlobalShuffle(pixelData: seq<Byte>, width: nat, height: nat, draws: seq<nat>) returns (result: seq<Byte>)
    requires IsBuffer(pixelData, width, height)
    requires ValidDraws(draws, width * height)
    ensures IsBuffer(result, width, height)
    ensures Pixels(result) == SwapAll(Pixels(pixelData), FisherYatesSwaps(draws))
    ensures result == Flatten(SwapAll(Pixels(pixelData), FisherYatesSwaps(draws)))
    ensures multiset(Pixels(result)) == multiset(Pixels(pixelData))
    ensures width * height <= 1 ==> result == pixelData
  {
    var pixels := ToArray(pixelData);
    ShufflePixels(pixels, draws);
    result := pixels[..];
    WholePixels(result, |draws|);
    WholePixels(pixelData, |draws|);
    FlattenOfPixels(result);
    FlattenOfPixels(pixelData);
  }

  /** An image whose pixels are all the same colour comes out of the shuffle
      unchanged, byte for byte, whatever the draws. */
  lemma UniformImageUnchanged(pixelData: seq<Byte>, width: nat, height: nat, draws: seq<nat>, c: Pixel)
    requires IsBuffer(pixelData, width, height)
    requires ValidDraws(draws, width * height)
    requires forall k :: 0 <= k < width * height ==> PixelAt(pixelData, k) == c
    ensures Flatten(SwapAll(Pixels(pixelData), FisherYatesSwaps(draws))) == pixelData
  {
    var p := Pixels(pixelData);
    WholePixels(pixelData, |draws|);
    assert forall k :: 0 <= k < |p| ==> p[k] == c;
    SwapAllUniform(p, FisherYatesSwaps(draws), c);
    FlattenOfPixels(pixelData);
  }
}

# MADpixels pixel-shuffle core in Dafny

MADpixels turns a raster image into a new one with one of eight effects. Its
image processor works on a flat RGBA8 buffer. The buffer holds `width * height`
pixels in row-major order, with four bytes per pixel, so pixel `(x, y)` starts
at byte `(y * width + x) * 4`.

This project models the integer, index-level part of that processor:

- The effect enumeration and its category mapping (`Effects`).
- The buffer layout: bytes read as whole pixels and written back (`PixelBuffer`).
- Swaps, gathers, scatters and permutations over pixel sequences (`Permutations`).
- The block grid shared by the two block effects (`BlockGrid`):
  - `blocksX = width / blockSize` and `blocksY = height / blockSize`, both truncating;
  - the row-major index list of each block;
  - the tiles in processing order;
  - the uncovered remainder strip.
- Global shuffle: a Fisher–Yates pass that exchanges whole pixels (`GlobalShuffle`).
- Bined shuffle: every block is gathered in a shuffled order into a temporary
  buffer and scattered back into its own positions (`BinedShuffle`).
- Local shuffle: in raster order, each pixel is exchanged with the pixel at its
  displaced target, clamped to the image (`LocalShuffle`).
- The layout of the colour shuffle (`ColorShuffle`). A white buffer gets every
  grid tile painted with opaque shades, and each channel goes to a byte through
  `UInt8(min(255, max(0, v * 255)))`.

The three shuffles and the colour layout are imperative, as in the source:

1. Copy the buffer into an `array`.
2. Change it in place through loops with their invariants: four `swapAt` calls
   per pixel exchange, the gather into `tempPixels` and the scatter back, and
   the per-pixel writes of the colour layout.
3. Return its contents.

Each method is proved against a specification function on pixel sequences:

- `SwapAll` of the swap list `FisherYatesSwaps` or `LocalSwaps`;
- `BlockFold` of the per-block rearrangements;
- `Paint` of the per-tile shades.

Lemmas state the properties of those functions (permutation, staying inside
the tile, the remainder strip kept, clamping in bounds, no-op cases).

Randomness is an input:

- `draws[i]` is the value `Int.random(in: 0...i)` takes at index `i` of the global shuffle.
- `perms[k]` is the order `blockIndices.shuffled()` produces for the k-th
  processed block, as a permutation of `0 ..< blockSize * blockSize`.
- `offsets[i]` is the pair `(offsetX, offsetY)` the local shuffle draws for pixel `i`.
- `shades[k][i]` is the RGB triple that `hslToRGB` produces for local pixel `i` of tile `k`.

Every statement holds for all such inputs.

## Model

| member | source | states |
|---|---|---|
| Effects.CategoryByPosition | apps/ios/MADpixelsApp/Sources/Core/ImageProcessor.swift:16-37 | In declaration order, the first four effects (the shuffles) are in Shuffles, the next three (invert, boost, blur) in Transforms and the last (gradient) in Creations, each in both directions |
| Effects.CategoriesPartition | apps/ios/MADpixelsApp/Sources/Core/ImageProcessor.swift:28-43 | An effect is in the group of a category exactly when that is its category, so the groups partition the effects |
| Effects.EffectsIn | apps/ios/MADpixelsApp/Sources/Views/ContentView.swift:198 | Filtering `allCases` by category (the grouping the effect picker shows) keeps exactly the effects of that category and no others |
| Effects.AllEffectsComplete | apps/ios/MADpixelsApp/Sources/Core/ImageProcessor.swift:16-24 | `allCases` lists every effect exactly once |
| Effects.RawValuesDistinct | apps/ios/MADpixelsApp/Sources/Core/ImageProcessor.swift:16-24 | No two effects share a raw value (their identifier), and no two categories share a name |
| PixelBuffer.PixelsOfFlatten | apps/ios/MADpixelsApp/Sources/Core/ImageProcessor.swift:446 | Laying pixels out as four bytes each and reading them back gives the same pixels |
| PixelBuffer.FlattenOfPixels | apps/ios/MADpixelsApp/Sources/Core/ImageProcessor.swift:446 | A buffer whose length is a multiple of four is its own pixels laid out again, so a byte never leaves its pixel |
| PixelBuffer.SwapPixels | apps/ios/MADpixelsApp/Sources/Core/ImageProcessor.swift:113-115 | Four `swapAt` calls on channel bytes exchange pixels i and j as wholes and change no other pixel |
| PixelBuffer.CopyPixel | apps/ios/MADpixelsApp/Sources/Core/ImageProcessor.swift:161-163 | Copying four channel bytes writes pixel i of the source into pixel j of the destination and changes nothing else |
| Permutations.Swap | apps/ios/MADpixelsApp/Sources/Core/ImageProcessor.swift:113-115 | An exchange puts each pixel at the other's place, keeps every other position and preserves the multiset |
| Permutations.SwapAll | apps/ios/MADpixelsApp/Sources/Core/ImageProcessor.swift:107-115 | Any sequence of in-bounds exchanges keeps the length and the multiset of pixels |
| Permutations.SwapAllUniform | apps/ios/MADpixelsApp/Sources/Core/ImageProcessor.swift:107-115 | Exchanges on a sequence of equal values leave it as it was |
| Permutations.PermutedMultiset | apps/ios/MADpixelsApp/Sources/Core/ImageProcessor.swift:157-164 | Reading a sequence through a permutation of its indices gives the same multiset of values |
| Permutations.GatherScatter | apps/ios/MADpixelsApp/Sources/Core/ImageProcessor.swift:158-170 | Scattering values to distinct positions and gathering those positions back gives the values |
| Permutations.ScatterMultiset | apps/ios/MADpixelsApp/Sources/Core/ImageProcessor.swift:166-170 | Scattering replaces exactly the gathered values by the scattered ones in the multiset |
| GlobalShuffle.FisherYatesSwaps | apps/ios/MADpixelsApp/Sources/Core/ImageProcessor.swift:107-108 | The loop makes the swaps (pixelCount-1-k, draw) for k = 0, 1, ..., none when pixelCount <= 1, each with the drawn index at most the loop index and both in bounds |
| GlobalShuffle.ShufflePixels | apps/ios/MADpixelsApp/Sources/Core/ImageProcessor.swift:103-122 | The loop from pixelCount-1 down to 1 leaves the pixels of the working array equal to the Fisher–Yates swaps applied to the original pixels |
| GlobalShuffle.GlobalShuffle | apps/ios/MADpixelsApp/Sources/Core/ImageProcessor.swift:94-125 | For draws with 0 <= draws[i] <= i, the result has length width*height*4, is the swapped pixels laid out, has the multiset of the input pixels, and equals the input when pixelCount <= 1 |
| GlobalShuffle.UniformImageUnchanged | apps/ios/MADpixelsApp/Sources/Core/ImageProcessor.swift:107-115 | An image whose pixels all have one colour comes out byte for byte unchanged, whatever the draws |
| BlockGrid.BlockRowsAt | apps/ios/MADpixelsApp/Sources/Core/ImageProcessor.swift:147-154 | Entry ly*blockSize+lx of a block's list is pixel (bx*blockSize+lx, by*blockSize+ly), which is row-major order within the block |
| BlockGrid.BlockIndexListFacts | apps/ios/MADpixelsApp/Sources/Core/ImageProcessor.swift:138-154 | A block inside the grid has blockSize² distinct entries, each below width*height, each inside its block |
| BlockGrid.BlockListsTiling | apps/ios/MADpixelsApp/Sources/Core/ImageProcessor.swift:138-154 | The grid blocks, in processing order, are in bounds, have no repeated entry, and are pairwise disjoint |
| BlockGrid.RemainderUntouched | apps/ios/MADpixelsApp/Sources/Core/ImageProcessor.swift:138-154 | A pixel with x >= blocksX*blockSize or y >= blocksY*blockSize is in no block list |
| BlockGrid.GridCell | apps/ios/MADpixelsApp/Sources/Core/ImageProcessor.swift:138-154 | A pixel outside the remainder strip is an entry of the list of its own tile (x / blockSize, y / blockSize) |
| BinedShuffle.CollectBlockIndices | apps/ios/MADpixelsApp/Sources/Core/ImageProcessor.swift:147-154 | The nested loop appends exactly the row-major index list of block (bx, by) |
| BinedShuffle.GatherPixels | apps/ios/MADpixelsApp/Sources/Core/ImageProcessor.swift:158-164 | The temporary buffer holds, in order, the pixels at the shuffled indices |
| BinedShuffle.ScatterPixels | apps/ios/MADpixelsApp/Sources/Core/ImageProcessor.swift:166-170 | Writing the temporary buffer back stores its i-th pixel at the i-th block index and changes no other pixel |
| BinedShuffle.ShuffleBlock | apps/ios/MADpixelsApp/Sources/Core/ImageProcessor.swift:147-170 | One block iteration rearranges that block by its permutation: the pixels become one rearrangement step of the original pixels |
| BinedShuffle.ShuffleBlocks | apps/ios/MADpixelsApp/Sources/Core/ImageProcessor.swift:141-179 | The two tile loops apply the rearrangement of every block, the k-th processed block using perms[k] |
| BinedShuffle.BinedShuffle | apps/ios/MADpixelsApp/Sources/Core/ImageProcessor.swift:128-182 | The result has length width*height*4, is the block rearrangement of the input pixels laid out, and has the multiset of the input pixels |
| BinedShuffle.BlockFoldMultiset | apps/ios/MADpixelsApp/Sources/Core/ImageProcessor.swift:144-179 | Rearranging disjoint in-bound blocks by permutations preserves the multiset of pixels |
| BinedShuffle.BlockFoldAt | apps/ios/MADpixelsApp/Sources/Core/ImageProcessor.swift:157-170 | After all blocks, position i of block m holds the original pixel at entry perms[m][i] of the same block, and a position in no block keeps its pixel |
| BinedShuffle.BlockPermuted | apps/ios/MADpixelsApp/Sources/Core/ImageProcessor.swift:157-170 | The pixels of block k after the pass are its own original pixels read in the order of perms[k], and so have the same multiset |
| BinedShuffle.TilePermuted | apps/ios/MADpixelsApp/Sources/Core/ImageProcessor.swift:138-170 | Tile (bx, by) holds a permutation of its own original pixels, in the order of the arrangement of its processing number |
| BinedShuffle.RemainderUnchanged | apps/ios/MADpixelsApp/Sources/Core/ImageProcessor.swift:138-154 | A pixel in the remainder strip keeps its value |
| BinedShuffle.GridPixelStaysInTile | apps/ios/MADpixelsApp/Sources/Core/ImageProcessor.swift:157-170 | Every pixel outside the remainder strip receives an original pixel of its own tile |
| LocalShuffle.Clamp | apps/ios/MADpixelsApp/Sources/Core/ImageProcessor.swift:206-207 | `max(lo, min(hi, v))` lies in [lo, hi] and is v when v is already in range |
| LocalShuffle.ClampNearest | apps/ios/MADpixelsApp/Sources/Core/ImageProcessor.swift:206-207 | The clamped value is the point of [lo, hi] nearest to v |
| LocalShuffle.LocalTarget | apps/ios/MADpixelsApp/Sources/Core/ImageProcessor.swift:199-208 | The clamped target index is below width*height for every integer offset |
| LocalShuffle.LocalTargetCoords | apps/ios/MADpixelsApp/Sources/Core/ImageProcessor.swift:199-208 | The target's column and row are the clamped displaced column and row, each within the image |
| LocalShuffle.LocalTargetInside | apps/ios/MADpixelsApp/Sources/Core/ImageProcessor.swift:199-208 | When the displaced position lies inside the image, the target is exactly that position |
| LocalShuffle.LocalTargetZero | apps/ios/MADpixelsApp/Sources/Core/ImageProcessor.swift:199-208 | A zero offset targets the pixel itself |
| LocalShuffle.LocalSwaps | apps/ios/MADpixelsApp/Sources/Core/ImageProcessor.swift:198-213 | The pass makes one in-bounds swap per pixel, the i-th swap exchanging pixel i with its target |
| LocalShuffle.DisplacePixels | apps/ios/MADpixelsApp/Sources/Core/ImageProcessor.swift:196-220 | The raster loop leaves the pixels equal to the local swaps applied in order to the original pixels, with later steps seeing earlier swaps |
| LocalShuffle.LocalShuffle | apps/ios/MADpixelsApp/Sources/Core/ImageProcessor.swift:185-223 | A non-positive effective spread returns the input unchanged; otherwise the result is the swapped pixels laid out; in both cases the length is width*height*4 and the pixel multiset is kept |
| LocalShuffle.ZeroOffsetsUnchanged | apps/ios/MADpixelsApp/Sources/Core/ImageProcessor.swift:198-213 | With every offset zero the pass leaves the image byte for byte as it was |
| ColorShuffle.ChannelByteRange | apps/ios/MADpixelsApp/Sources/Core/ImageProcessor.swift:268-270 | A channel value <= 0 gives byte 0, one >= 1 gives 255, and one in [0, 1] gives v*255 rounded down |
| ColorShuffle.ChannelByteMonotonic | apps/ios/MADpixelsApp/Sources/Core/ImageProcessor.swift:268-270 | A larger channel value never gives a smaller byte |
| ColorShuffle.WhiteBuffer | apps/ios/MADpixelsApp/Sources/Core/ImageProcessor.swift:246 | The fresh buffer has width*height*4 bytes and every pixel is opaque white |
| ColorShuffle.PaintBlock | apps/ios/MADpixelsApp/Sources/Core/ImageProcessor.swift:257-273 | The two local loops write shade i of the block at entry i of the block's index list, and change no other pixel |
| ColorShuffle.PaintBlocks | apps/ios/MADpixelsApp/Sources/Core/ImageProcessor.swift:251-282 | The two tile loops paint every grid tile with its shades, the k-th processed tile using shades[k] |
| ColorShuffle.LayoutOpaque | apps/ios/MADpixelsApp/Sources/Core/ImageProcessor.swift:246-271 | Every pixel of the painted image has alpha 255 |
| ColorShuffle.LayoutRemainderWhite | apps/ios/MADpixelsApp/Sources/Core/ImageProcessor.swift:246-261 | A pixel in the remainder strip stays opaque white (all bytes 255) |
| ColorShuffle.LayoutTileShade | apps/ios/MADpixelsApp/Sources/Core/ImageProcessor.swift:253-271 | Pixel (bx*blockSize+lx, by*blockSize+ly) holds the shade of local pixel ly*blockSize+lx of its tile |
| ColorShuffle.BinedColorShuffle | apps/ios/MADpixelsApp/Sources/Core/ImageProcessor.swift:229-285 | The result has length width*height*4, is the painted layout laid out as bytes, and every pixel has alpha 255 |

## Left out

- Sampling the palette (lines 237-244), picking a base colour per block
  (line 255), and the HSL perturbation and `hslToRGB` conversion
  (lines 263-267). They are Float arithmetic on random draws, so they are
  part of the `shades` input. `rgbToHSL` and `hslToRGB` themselves are not
  part of this model.
- `gaussianRandom` and the conversion `Int(gaussianRandom() * Double(spread))`
  (lines 203-204) are not modelled. Their outcome is the `offsets` input.
- `Int.random` (line 108) and `Array.shuffled` (line 157) are not modelled.
  Their outcomes are the `draws` and `perms` inputs, with only the guarantees
  the source relies on: `0 <= j <= i`, and a permutation of the block.
- Boost, gradient, invert and Gaussian blur are not modelled. Boost and
  gradient are floating-point numerics with `sqrt`, `tanh`, `log` and `cos`.
  Invert and blur are CoreImage filter calls.
- `resizeImage`, `getPixelData` and `createImage` are CoreGraphics I/O, and
  so are their `nil` results and the `guard ... else { return nil }` exits.
  Each shuffle takes the buffer already read. Its length `width * height * 4`
  (line 446) is a precondition.
- The `apply` dispatch, `isProcessing`, progress publishing through `MainActor.run`
  (lines 117-121, 173-177, 276-280) and the async/concurrency structure are not
  modelled. They do not touch the pixels.
- `MetalImageProcessor` and the SwiftUI views and view model are not part of this model.
- Swift `Int` overflow is not modelled, because integers are unbounded.
  The source's products `width * height * 4` and `(y * width + x) * 4` are
  far from overflow for the sizes the UI allows.
- LocalShuffle.EffectiveSpread: `Float` is modelled as `real`. Only the sign
  of the effective spread decides anything, so Float rounding and NaN are not modelled.
- ColorShuffle.ChannelByte: the Float channel value is a `real`. The
  truncating `UInt8` conversion is rounding down of a value in [0, 255], and
  the Float rounding of `r * 255` is not modelled.
- BinedShuffle.BinedShuffle and ColorShuffle.BinedColorShuffle require
  `blockSize > 0`, because the Swift code traps on the division
  `width / blockSize` when it is zero.
- ColorShuffle.BinedColorShuffle: the trap of `Int.random(in: 0..<0)` on an
  empty image (line 239) belongs to the sampling that is left out. For that
  case the model returns the empty buffer.
- LocalShuffle.LocalShuffle: when the spread is not positive, the code returns
  the original image object (line 193). The model follows the code and returns
  the input buffer unchanged. A design that always returns a freshly allocated
  buffer is not followed here.

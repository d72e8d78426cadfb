/** The colour shuffle effect: a fresh white image whose grid tiles are
    painted, tile by tile in row-major tile order and pixel by pixel in
    row-major order within a tile, with opaque shades. The shade of each
    pixel (a random variation of a colour sampled from the source image,
    converted from HSL to RGB) is an input: shades[k][i] is the RGB triple,
    each channel nominally in [0, 1], of local pixel i of tile number k. */
module ColorShuffle {
  import opened Permutations
  import opened PixelBuffer
  import opened BlockGrid

  /** The colour the buffer is filled with before painting. */
  const White: Pixel := Pixel(255, 255, 255, 255)

  /** One colour channel as a byte: the value scaled by 255, kept within
      0 ..< 256 by `min(255, max(0, _))`, then converted to `UInt8`, which
      drops the fraction. */
  function ChannelByte(v: real): Byte
  {
    var low := if v * 255.0 >= 0.0 then v * 255.0 else 0.0;
    var high := if low <= 255.0 then low else 255.0;
    high.Floor
  }

  /** Values at or below 0 give 0, values at or above 1 give 255, and in
      between the byte is v * 255 rounded down. */
  lemma ChannelByteRange(v: real)
    ensures v <= 0.0 ==> ChannelByte(v) == 0
    ensures v >= 1.0 ==> ChannelByte(v) == 255
    ensures 0.0 <= v <= 1.0 ==> ChannelByte(v) as real <= v * 255.0 < ChannelByte(v) as real + 1.0
  {
  }

  /** A larger channel value never gives a smaller byte. */
  lemma ChannelByteMonotonic(v: real, w: real)
    requires v <= w
    ensures ChannelByte(v) <= ChannelByte(w)
  {
  }

  type Shade = (real, real, real)

  /** The pixel painted for a shade: its three channels as bytes, alpha 255. */
  function ShadePixel(s: Shade): Pixel
  {
    Pixel(ChannelByte(s.0), ChannelByte(s.1), ChannelByte(s.2), 255)
  }

  function ShadePixels(shades: seq<Shade>): (r: seq<Pixel>)
    ensures |r| == |shades| && forall i :: 0 <= i < |shades| ==> r[i] == ShadePixel(shades[i])
  {
    seq(|shades|, i requires 0 <= i < |shades| => ShadePixel(shades[i]))
  }

  /** Block k writes one value to each of its positions, all below n. */
  predicate PaintPlan(lists: seq<seq<nat>>, values: seq<seq<Pixel>>, n: nat)
  {
    |lists| == |values| &&
    forall k :: 0 <= k < |lists| ==> IndicesBelow(lists[k], n) && |values[k]| == |lists[k]|
  }

  lemma PaintPlanPrefix(lists: seq<seq<nat>>, values: seq<seq<Pixel>>, n: nat, k: nat)
    requires PaintPlan(lists, values, n) && k <= |lists|
    ensures PaintPlan(lists[..k], values[..k], n)
  {
    forall m | 0 <= m < k ensures IndicesBelow(lists[..k][m], n) && |values[..k][m]| == |lists[..k][m]| {
      assert lists[..k][m] == lists[m] && values[..k][m] == values[m];
    }
  }

  /** Every block written in turn: block k writes values[k][i] to position lists[k][i]. */
  function Paint(p: seq<Pixel>, lists: seq<seq<nat>>, values: seq<seq<Pixel>>): (r: seq<Pixel>)
    requires PaintPlan(lists, values, |p|)
    ensures |r| == |p|
    decreases |lists|
  {
    if lists == [] then p
    else
      var n := |lists| - 1;
      PaintPlanPrefix(lists, values, |p|, n);
      Scatter(Paint(p, lists[..n], values[..n]), lists[n], values[n])
  }

  /** The sequence after the first k blocks have been written. */
  function PaintPrefix(p: seq<Pixel>, lists: seq<seq<nat>>, values: seq<seq<Pixel>>, k: nat): (r: seq<Pixel>)
    requires PaintPlan(lists, values, |p|) && k <= |lists|
    ensures |r| == |p|
  {
    PaintPlanPrefix(lists, values, |p|, k);
    Paint(p, lists[..k], values[..k])
  }

  lemma PaintPrefixStep(p: seq<Pixel>, lists: seq<seq<nat>>, values: seq<seq<Pixel>>, k: nat)
    requires PaintPlan(lists, values, |p|) && k < |lists|
    ensures PaintPrefix(p, lists, values, k + 1) == Scatter(PaintPrefix(p, lists, values, k), lists[k], values[k])
  {
    PaintPlanPrefix(lists, values, |p|, k);
    PaintPlanPrefix(lists, values, |p|, k + 1);
    assert lists[..k + 1][..k] == lists[..k];
    assert values[..k + 1][..k] == values[..k];
  }

  /** A position outside every block keeps its element. */
  lemma {:induction false} PaintUntouched(p: seq<Pixel>, lists: seq<seq<nat>>, values: seq<seq<Pixel>>, q: nat)
    requires PaintPlan(lists, values, |p|) && q < |p| && Untouched(lists, q)
    ensures Paint(p, lists, values)[q] == p[q]
    decreases |lists|
  {
    if lists != [] {
      var n := |lists| - 1;
      var front, fvalues := lists[..n], values[..n];
      PaintPlanPrefix(lists, values, |p|, n);
      assert Untouched(front, q) by {
        forall m | 0 <= m < n ensures q !in front[m] {
          assert front[m] == lists[m];
        }
      }
      PaintUntouched(p, front, fvalues, q);
      ScatterOutside(Paint(p, front, fvalues), lists[n], values[n], q);
    }
  }

  /** With disjoint blocks, position i of block m holds the value written to it. */
  lemma {:induction false} PaintEntry(p: seq<Pixel>, lists: seq<seq<nat>>, values: seq<seq<Pixel>>, m: nat, i: nat)
    requires PaintPlan(lists, values, |p|) && Tiling(lists, |p|) && m < |lists| && i < |lists[m]|
    ensures Paint(p, lists, values)[lists[m][i]] == values[m][i]
    decreases |lists|
  {
    var n := |lists| - 1;
    var front, fvalues := lists[..n], values[..n];
    PaintPlanPrefix(lists, values, |p|, n);
    var f := Paint(p, front, fvalues);
    if m < n {
      assert lists[m][i] !in lists[n] by {
        assert lists == front + [lists[n]];
        TilingLast(front, lists[n], |p|);
        assert front[m] == lists[m];
      }
      TilingPrefix(lists, |p|, n);
      assert front[m] == lists[m] && fvalues[m] == values[m];
      PaintEntry(p, front, fvalues, m, i);
      ScatterOutside(f, lists[n], values[n], lists[m][i]);
    } else {
      ScatterWritten(f, lists[n], values[n], i);
    }
  }

  /** Writing opaque values over an opaque sequence leaves it opaque. */
  lemma {:induction false} ScatterOpaque(p: seq<Pixel>, idx: seq<nat>, v: seq<Pixel>)
    requires |idx| == |v| && IndicesBelow(idx, |p|)
    requires forall q :: 0 <= q < |p| ==> p[q].a == 255
    requires forall i :: 0 <= i < |v| ==> v[i].a == 255
    ensures forall q :: 0 <= q < |p| ==> Scatter(p, idx, v)[q].a == 255
    decreases |idx|
  {
    if idx != [] {
      var n := |idx| - 1;
      ScatterOpaque(p, idx[..n], v[..n]);
    }
  }

  lemma {:induction false} PaintOpaque(p: seq<Pixel>, lists: seq<seq<nat>>, values: seq<seq<Pixel>>)
    requires PaintPlan(lists, values, |p|)
    requires forall q :: 0 <= q < |p| ==> p[q].a == 255
    requires forall m, i :: 0 <= m < |values| && 0 <= i < |values[m]| ==> values[m][i].a == 255
    ensures forall q :: 0 <= q < |p| ==> Paint(p, lists, values)[q].a == 255
    decreases |lists|
  {
    if lists != [] {
      var n := |lists| - 1;
      PaintPlanPrefix(lists, values, |p|, n);
      PaintOpaque(p, lists[..n], values[..n]);
      ScatterOpaque(Paint(p, lists[..n], values[..n]), lists[n], values[n]);
    }
  }

  /** One shade per pixel of every tile of the grid. */
  predicate ValidShades(shades: seq<seq<Shade>>, width: nat, height: nat, blockSize: nat)
    requires 0 < blockSize
  {
    |shades| == (width / blockSize) * (height / blockSize) &&
    forall k :: 0 <= k < |shades| ==> |shades[k]| == blockSize * blockSize
  }

  function ShadeValues(shades: seq<seq<Shade>>): (r: seq<seq<Pixel>>)
    ensures |r| == |shades| && forall k :: 0 <= k < |shades| ==> r[k] == ShadePixels(shades[k])
  {
    seq(|shades|, k requires 0 <= k < |shades| => ShadePixels(shades[k]))
  }

  /** n white pixels. */
  function Blank(n: nat): (r: seq<Pixel>)
    ensures |r| == n && forall q :: 0 <= q < n ==> r[q] == White
  {
    seq(n, _ => White)
  }

  /** The tiles of the grid with their shades form a paint plan over the image. */
  lemma GridPaintPlan(width: nat, height: nat, blockSize: nat, shades: seq<seq<Shade>>)
    requires 0 < blockSize && ValidShades(shades, width, height, blockSize)
    ensures PaintPlan(BlockLists(width, height, blockSize), ShadeValues(shades), width * height)
    ensures Tiling(BlockLists(width, height, blockSize), width * height)
  {
    BlockListsTiling(width, height, blockSize);
  }

  /** The painted image: white, with every grid tile painted with its shades. */
  function ColorLayout(width: nat, height: nat, blockSize: nat, shades: seq<seq<Shade>>): (r: seq<Pixel>)
    requires 0 < blockSize && ValidShades(shades, width, height, blockSize)
    ensures |r| == width * height
  {
    GridPaintPlan(width, height, blockSize, shades);
    Paint(Blank(width * height), BlockLists(width, height, blockSize), ShadeValues(shades))
  }

  /** Every pixel of the painted image is opaque. */
  lemma LayoutOpaque(width: nat, height: nat, blockSize: nat, shades: seq<seq<Shade>>, q: nat)
    requires 0 < blockSize && ValidShades(shades, width, height, blockSize) && q < width * height
    ensures ColorLayout(width, height, blockSize, shades)[q].a == 255
  {
    GridPaintPlan(width, height, blockSize, shades);
    PaintOpaque(Blank(width * height), BlockLists(width, height, blockSize), ShadeValues(shades));
  }

  /** The strip that no tile covers stays white. */
  lemma LayoutRemainderWhite(width: nat, height: nat, blockSize: nat, shades: seq<seq<Shade>>, q: nat)
    requires 0 < blockSize && ValidShades(shades, width, height, blockSize) && q < width * height
    ensures 0 < width
    ensures InRemainder(width, height, blockSize, q) ==> ColorLayout(width, height, blockSize, shades)[q] == White
  {
    Coords(q, width, height);
    GridPaintPlan(width, height, blockSize, shades);
    if InRemainder(width, height, blockSize, q) {
      RemainderUntouched(width, height, blockSize, q);
      PaintUntouched(Blank(width * height), BlockLists(width, height, blockSize), ShadeValues(shades), q);
    }
  }

  /** Local pixel (lx, ly) of tile (tx, ty) carries shade LocalIndex(lx, ly)
      of tile number Offset(blocksX, tx, ty). */
  lemma LayoutTileShade(width: nat, height: nat, blockSize: nat, shades: seq<seq<Shade>>, tx: nat, ty: nat, lx: nat, ly: nat)
    requires 0 < blockSize && ValidShades(shades, width, height, blockSize)
    requires tx < width / blockSize && ty < height / blockSize && lx < blockSize && ly < blockSize
    ensures Offset(width, tx * blockSize + lx, ty * blockSize + ly) < width * height
    ensures Offset(width / blockSize, tx, ty) < |shades| &&
      LocalIndex(blockSize, lx, ly) < |shades[Offset(width / blockSize, tx, ty)]|
    ensures ColorLayout(width, height, blockSize, shades)[Offset(width, tx * blockSize + lx, ty * blockSize + ly)]
         == ShadePixel(shades[Offset(width / blockSize, tx, ty)][LocalIndex(blockSize, lx, ly)])
  {
    GridPaintPlan(width, height, blockSize, shades);
    var k := TileNumber(width, height, blockSize, tx, ty);
    var lists := BlockLists(width, height, blockSize);
    BlockRowsAt(width, blockSize, tx, ty, blockSize, lx, ly);
    BlockIndexListFacts(width, height, blockSize, tx, ty);
    PaintEntry(Blank(width * height), lists, ShadeValues(shades), k, LocalIndex(blockSize, lx, ly));
  }

  /** Writes the three colour bytes and an alpha of 255 at byte offset idx = 4 * k. */
  method WritePixel(pixels: array<Byte>, k: nat, px: Pixel)
    requires 4 * k + 4 <= pixels.Length
    modifies pixels
    ensures pixels[..] == SetPixel(old(pixels[..]), k, px)
  {
    var idx := k * 4;
    pixels[idx] := px.r;
    pixels[idx + 1] := px.g;
    pixels[idx + 2] := px.b;
    pixels[idx + 3] := px.a;
  }

  /** One pixel of the `lx` loop: local pixel (lx, ly) of tile (tx, ty),
      at index (y * width + x) with x = tx * blockSize + lx and
      y = ty * blockSize + ly, gets shade shadeList[LocalIndex(lx, ly)],
      which is shade j of the tile's list. */
  method PaintCell(pixels: array<Byte>, width: nat, blockSize: nat, tx: nat, ty: nat, lx: nat, ly: nat,
                   shadeList: seq<Shade>, ghost p0: seq<Pixel>, ghost j: nat)
    requires lx < blockSize && ly < blockSize && |shadeList| == blockSize * blockSize && pixels.Length == 4 * |p0|
    requires IndicesBelow(BlockIndexList(width, blockSize, tx, ty), |p0|)
    requires j == LocalIndex(blockSize, lx, ly) && j < blockSize * blockSize
    requires Pixels(pixels[..]) == Scatter(p0, BlockIndexList(width, blockSize, tx, ty)[..j], ShadePixels(shadeList)[..j])
    modifies pixels
    ensures Pixels(pixels[..]) == Scatter(p0, BlockIndexList(width, blockSize, tx, ty)[..j + 1], ShadePixels(shadeList)[..j + 1])
  {
    ghost var list := BlockIndexList(width, blockSize, tx, ty);
    ghost var values := ShadePixels(shadeList);
    var x := tx * blockSize + lx;
    var y := ty * blockSize + ly;
    var k := y * width + x;
    assert list[j] == k by {
      BlockRowsAt(width, blockSize, tx, ty, blockSize, lx, ly);
    }
    assert 4 * k + 4 <= pixels.Length by {
      assert k < |p0|;
    }
    ghost var before := pixels[..];
    WritePixel(pixels, k, ShadePixel(shadeList[LocalIndex(blockSize, lx, ly)]));
    ScatterPixelStep(p0, before, list, values, j);
  }

  /** The `lx` loop painting local row ly of tile (tx, ty): shades
      start ..< start + blockSize of the tile's list, start = LocalIndex(0, ly). */
  method PaintLocalRow(pixels: array<Byte>, width: nat, blockSize: nat, tx: nat, ty: nat, ly: nat,
                       shadeList: seq<Shade>, ghost p0: seq<Pixel>, ghost start: nat)
    requires ly < blockSize && |shadeList| == blockSize * blockSize && pixels.Length == 4 * |p0|
    requires IndicesBelow(BlockIndexList(width, blockSize, tx, ty), |p0|)
    requires start == LocalIndex(blockSize, 0, ly) && start + blockSize <= blockSize * blockSize
    requires Pixels(pixels[..]) == Scatter(p0, BlockIndexList(width, blockSize, tx, ty)[..start], ShadePixels(shadeList)[..start])
    modifies pixels
    ensures Pixels(pixels[..]) == Scatter(p0, BlockIndexList(width, blockSize, tx, ty)[..start + blockSize],
      ShadePixels(shadeList)[..start + blockSize])
  {
    ghost var list := BlockIndexList(width, blockSize, tx, ty);
    ghost var values := ShadePixels(shadeList);
    for lx := 0 to blockSize
      invariant Pixels(pixels[..]) == Scatter(p0, list[..start + lx], values[..start + lx])
    {
      PaintCell(pixels, width, blockSize, tx, ty, lx, ly, shadeList, p0, start + lx);
    }
  }

  /** The `ly`, `lx` loops painting tile (tx, ty): local pixel
      LocalIndex(lx, ly) gets shade shadeList[LocalIndex(lx, ly)]. */
  method PaintBlock(pixels: array<Byte>, width: nat, blockSize: nat, tx: nat, ty: nat, shadeList: seq<Shade>, ghost n: nat)
    requires pixels.Length == 4 * n && |shadeList| == blockSize * blockSize
    requires IndicesBelow(BlockIndexList(width, blockSize, tx, ty), n)
    modifies pixels
    ensures |Pixels(old(pixels[..]))| == n &&
      Pixels(pixels[..]) == Scatter(Pixels(old(pixels[..])), BlockIndexList(width, blockSize, tx, ty), ShadePixels(shadeList))
  {
    ghost var list := BlockIndexList(width, blockSize, tx, ty);
    ghost var values := ShadePixels(shadeList);
    ghost var p0 := Pixels(pixels[..]);
    WholePixels(pixels[..], n);
    ghost var start := 0;
    for ly := 0 to blockSize
      invariant start == LocalIndex(blockSize, 0, ly) && start <= blockSize * blockSize
      invariant Pixels(pixels[..]) == Scatter(p0, list[..start], values[..start])
    {
      NextLocalRow(blockSize, ly);
      PaintLocalRow(pixels, width, blockSize, tx, ty, ly, shadeList, p0, start);
      start := start + blockSize;
    }
    assert list[..start] == list && values[..start] == values by {
      RowStart(blockSize, blockSize, blockSize);
    }
  }

  /** Painting tile (tx, ty) is the step from the first Offset(blocksX, tx, ty)
      tiles painted to one more. */
  lemma TileStep(p0: seq<Pixel>, width: nat, height: nat, blockSize: nat, shades: seq<seq<Shade>>, tx: nat, ty: nat)
    requires 0 < blockSize && |p0| == width * height
    requires |shades| == (width / blockSize) * (height / blockSize)
    requires PaintPlan(BlockLists(width, height, blockSize), ShadeValues(shades), |p0|)
    requires tx < width / blockSize && ty < height / blockSize
    ensures Offset(width / blockSize, tx, ty) < |shades|
    ensures |shades[Offset(width / blockSize, tx, ty)]| == blockSize * blockSize
    ensures |BlockIndexList(width, blockSize, tx, ty)| == blockSize * blockSize &&
      IndicesBelow(BlockIndexList(width, blockSize, tx, ty), |p0|) &&
      PaintPrefix(p0, BlockLists(width, height, blockSize), ShadeValues(shades), Offset(width / blockSize, tx, ty) + 1)
         == Scatter(PaintPrefix(p0, BlockLists(width, height, blockSize), ShadeValues(shades), Offset(width / blockSize, tx, ty)),
                    BlockIndexList(width, blockSize, tx, ty), ShadePixels(shades[Offset(width / blockSize, tx, ty)]))
  {
    var lists := BlockLists(width, height, blockSize);
    var values := ShadeValues(shades);
    var k := TileNumber(width, height, blockSize, tx, ty);
    BlockIndexListFacts(width, height, blockSize, tx, ty);
    assert |values[k]| == |lists[k]|;
    PaintPrefixStep(p0, lists, values, k);
  }

  /** The `bx` loop for tile row ty: it paints tiles Offset(blocksX, 0, ty)
      up to Offset(blocksX, 0, ty + 1) of the grid, in order. */
  method PaintTileRow(pixels: array<Byte>, width: nat, height: nat, blockSize: nat, shades: seq<seq<Shade>>,
                      ty: nat, ghost p0: seq<Pixel>)
    requires 0 < blockSize && IsBuffer(pixels[..], width, height) && |p0| == width * height
    requires |shades| == (width / blockSize) * (height / blockSize)
    requires PaintPlan(BlockLists(width, height, blockSize), ShadeValues(shades), |p0|)
    requires ty < height / blockSize
    requires Offset(width / blockSize, width / blockSize, ty) <= |shades|
    requires Pixels(pixels[..]) == PaintPrefix(p0, BlockLists(width, height, blockSize), ShadeValues(shades), Offset(width / blockSize, 0, ty))
    modifies pixels
    ensures Pixels(pixels[..]) == PaintPrefix(p0, BlockLists(width, height, blockSize), ShadeValues(shades), Offset(width / blockSize, width / blockSize, ty))
  {
    ghost var lists := BlockLists(width, height, blockSize);
    ghost var values := ShadeValues(shades);
    var blocksX := width / blockSize;
    var processedBlocks := Offset(blocksX, 0, ty);
    for tx := 0 to blocksX
      invariant processedBlocks == Offset(blocksX, tx, ty)
      invariant Pixels(pixels[..]) == PaintPrefix(p0, lists, values, processedBlocks)
    {
      TileStep(p0, width, height, blockSize, shades, tx, ty);
      PaintBlock(pixels, width, blockSize, tx, ty, shades[processedBlocks], width * height);
      processedBlocks := processedBlocks + 1;
    }
  }

  /** The `by` loop over the tile rows. */
  method PaintBlocks(pixels: array<Byte>, width: nat, height: nat, blockSize: nat, shades: seq<seq<Shade>>)
    requires 0 < blockSize && IsBuffer(pixels[..], width, height)
    requires ValidShades(shades, width, height, blockSize)
    modifies pixels
    ensures PaintPlan(BlockLists(width, height, blockSize), ShadeValues(shades), |Pixels(old(pixels[..]))|) &&
      Pixels(pixels[..]) == Paint(Pixels(old(pixels[..])), BlockLists(width, height, blockSize), ShadeValues(shades))
  {
    ghost var p0 := Pixels(pixels[..]);
    ghost var lists := BlockLists(width, height, blockSize);
    ghost var values := ShadeValues(shades);
    GridPaintPlan(width, height, blockSize, shades);
    var blocksX := width / blockSize;
    var blocksY := height / blockSize;
    for ty := 0 to blocksY
      invariant Offset(blocksX, 0, ty) <= |lists|
      invariant Pixels(pixels[..]) == PaintPrefix(p0, lists, values, Offset(blocksX, 0, ty))
    {
      NextRow(blocksX, ty);
      RowStart(blocksX, ty + 1, blocksY);
      PaintTileRow(pixels, width, height, blockSize, shades, ty, p0);
    }
    RowStart(blocksX, blocksY, blocksY);
    assert lists[..Offset(blocksX, 0, blocksY)] == lists && values[..Offset(blocksX, 0, blocksY)] == values;
  }

  /** A fresh buffer of n pixels with every byte 255 (`[UInt8](repeating:
      255, count: width * height * 4)`): n white pixels. */
  method WhiteBuffer(n: nat) returns (pixels: array<Byte>)
    ensures fresh(pixels) && pixels.Length == 4 * n
    ensures Pixels(pixels[..]) == Blank(n)
  {
    pixels := new Byte[4 * n](_ => 255);
    WholePixels(pixels[..], n);
  }

  /** Every pixel of the laid-out painted image has alpha byte 255. */
  lemma LayoutBytesOpaque(width: nat, height: nat, blockSize: nat, shades: seq<seq<Shade>>, result: seq<Byte>)
    requires 0 < blockSize && ValidShades(shades, width, height, blockSize)
    requires result == Flatten(ColorLayout(width, height, blockSize, shades))
    ensures |result| == 4 * (width * height)
    ensures forall q :: 0 <= q < width * height ==> PixelAt(result, q).a == 255
  {
    PixelsOfFlatten(ColorLayout(width, height, blockSize, shades));
    forall q | 0 <= q < width * height ensures PixelAt(result, q).a == 255 {
      LayoutOpaque(width, height, blockSize, shades, q);
      assert Pixels(result)[q] == PixelAt(result, q);
    }
  }

  /** The colour shuffle image: a white buffer with every grid tile painted
      with its shades. */
  method BinedColorShuffle(width: nat, height: nat, blockSize: nat, shades: seq<seq<Shade>>) returns (result: seq<Byte>)
    requires 0 < blockSize && ValidShades(shades, width, height, blockSize)
    ensures IsBuffer(result, width, height)
    ensures result == Flatten(ColorLayout(width, height, blockSize, shades))
    ensures forall q :: 0 <= q < width * height ==> PixelAt(result, q).a == 255
  {
    var pixels := WhiteBuffer(width * height);
    PaintBlocks(pixels, width, height, blockSize, shades);
    result := pixels[..];
    WholePixels(result, width * height);
    FlattenOfPixels(result);
    LayoutBytesOpaque(width, height, blockSize, shades, result);
  }
}

/** The bined shuffle effect: the image is cut into blockSize x blockSize
    tiles, and the pixels of each tile are rearranged among themselves, tile
    by tile in row-major tile order. The result of `shuffled()` on tile number
    k is an input: perms[k] is the arrangement it picks, so the shuffled
    index list is blockIndices[perms[k][0]], blockIndices[perms[k][1]], .... */
module BinedShuffle {
  import opened Permutations
  import opened PixelBuffer
  import opened BlockGrid

  /** Rearranging by each permutation gathers from and scatters to positions
      below n, once each. */
  predicate ValidPlan(lists: seq<seq<nat>>, perms: seq<seq<nat>>, n: nat)
  {
    |lists| == |perms| &&
    forall k :: 0 <= k < |lists| ==>
      IndicesBelow(lists[k], n) && Injective(lists[k]) && IsPermutation(perms[k], |lists[k]|)
  }

  /** One block: the pixels at the shuffled indices, read out first, are
      written back to the block's indices in order. */
  function BlockStep<T>(p: seq<T>, list: seq<nat>, perm: seq<nat>): (r: seq<T>)
    requires IndicesBelow(list, |p|) && IsPermutation(perm, |list|)
    ensures |r| == |p|
  {
    PermutationBounded(perm, |list|);
    var shuffled := Gather(list, perm);
    Scatter(p, list, Gather(p, shuffled))
  }

  /** All blocks of the plan, one after the other. */
  function BlockFold<T>(p: seq<T>, lists: seq<seq<nat>>, perms: seq<seq<nat>>): (r: seq<T>)
    requires ValidPlan(lists, perms, |p|)
    ensures |r| == |p|
    decreases |lists|
  {
    if lists == [] then p
    else
      var n := |lists| - 1;
      assert ValidPlan(lists[..n], perms[..n], |p|);
      BlockStep(BlockFold(p, lists[..n], perms[..n]), lists[n], perms[n])
  }

  lemma ValidPlanPrefix(lists: seq<seq<nat>>, perms: seq<seq<nat>>, n: nat, k: nat)
    requires ValidPlan(lists, perms, n) && k <= |lists|
    ensures ValidPlan(lists[..k], perms[..k], n)
  {
    forall m | 0 <= m < k
      ensures IndicesBelow(lists[..k][m], n) && Injective(lists[..k][m]) && IsPermutation(perms[..k][m], |lists[..k][m]|)
    {
      assert lists[..k][m] == lists[m] && perms[..k][m] == perms[m];
    }
  }

  /** The sequence after the first k blocks of the plan. */
  function FoldPrefix<T>(p: seq<T>, lists: seq<seq<nat>>, perms: seq<seq<nat>>, k: nat): (r: seq<T>)
    requires ValidPlan(lists, perms, |p|) && k <= |lists|
    ensures |r| == |p|
  {
    ValidPlanPrefix(lists, perms, |p|, k);
    BlockFold(p, lists[..k], perms[..k])
  }

  /** Processing block k after the first k blocks processes the first k + 1. */
  lemma BlockFoldPrefix<T>(p: seq<T>, lists: seq<seq<nat>>, perms: seq<seq<nat>>, k: nat)
    requires ValidPlan(lists, perms, |p|) && k < |lists|
    ensures FoldPrefix(p, lists, perms, k + 1) == BlockStep(FoldPrefix(p, lists, perms, k), lists[k], perms[k])
  {
    ValidPlanPrefix(lists, perms, |p|, k);
    ValidPlanPrefix(lists, perms, |p|, k + 1);
    assert lists[..k + 1][..k] == lists[..k];
    assert perms[..k + 1][..k] == perms[..k];
  }

  /** Within the block, position list[i] receives the element from list[perm[i]]. */
  lemma BlockStepInside<T>(p: seq<T>, list: seq<nat>, perm: seq<nat>, i: nat)
    requires IndicesBelow(list, |p|) && Injective(list) && IsPermutation(perm, |list|) && i < |list|
    ensures perm[i] < |list| && BlockStep(p, list, perm)[list[i]] == p[list[perm[i]]]
  {
    PermutationBounded(perm, |list|);
    ScatterWritten(p, list, Gather(p, Gather(list, perm)), i);
  }

  /** Every position outside the block keeps its element. */
  lemma BlockStepOutside<T>(p: seq<T>, list: seq<nat>, perm: seq<nat>, q: nat)
    requires IndicesBelow(list, |p|) && IsPermutation(perm, |list|) && q < |p| && q !in list
    ensures BlockStep(p, list, perm)[q] == p[q]
  {
    PermutationBounded(perm, |list|);
    ScatterOutside(p, list, Gather(p, Gather(list, perm)), q);
  }

  /** A block step keeps the elements of the whole sequence. */
  lemma BlockStepMultiset<T>(p: seq<T>, list: seq<nat>, perm: seq<nat>)
    requires IndicesBelow(list, |p|) && Injective(list) && IsPermutation(perm, |list|)
    ensures multiset(BlockStep(p, list, perm)) == multiset(p)
  {
    PermutationBounded(perm, |list|);
    var g := Gather(p, list);
    var v := Gather(p, Gather(list, perm));
    assert v == Gather(g, perm);
    PermutedMultiset(g, perm);
    ScatterMultiset(p, list, v);
    MultisetCancel(multiset(BlockStep(p, list, perm)), multiset(p), multiset(g));
  }

  /** The plan keeps the elements of the whole sequence. */
  lemma {:induction false} BlockFoldMultiset<T>(p: seq<T>, lists: seq<seq<nat>>, perms: seq<seq<nat>>)
    requires ValidPlan(lists, perms, |p|)
    ensures multiset(BlockFold(p, lists, perms)) == multiset(p)
    decreases |lists|
  {
    if lists != [] {
      var n := |lists| - 1;
      assert ValidPlan(lists[..n], perms[..n], |p|);
      BlockFoldMultiset(p, lists[..n], perms[..n]);
      BlockStepMultiset(BlockFold(p, lists[..n], perms[..n]), lists[n], perms[n]);
    }
  }

  /** A position outside every block keeps its element. */
  lemma {:induction false} BlockFoldUntouched<T>(p: seq<T>, lists: seq<seq<nat>>, perms: seq<seq<nat>>, q: nat)
    requires ValidPlan(lists, perms, |p|) && q < |p| && Untouched(lists, q)
    ensures BlockFold(p, lists, perms)[q] == p[q]
    decreases |lists|
  {
    if lists != [] {
      var n := |lists| - 1;
      var front, fperms := lists[..n], perms[..n];
      ValidPlanPrefix(lists, perms, |p|, n);
      assert Untouched(front, q) by {
        forall m | 0 <= m < n ensures q !in front[m] {
          assert front[m] == lists[m];
        }
      }
      BlockFoldUntouched(p, front, fperms, q);
      BlockStepOutside(BlockFold(p, front, fperms), lists[n], perms[n], q);
    }
  }

  /** Disjoint blocks: position i of block m receives the original element at
      position perms[m][i] of the same block. */
  lemma {:induction false} BlockFoldEntry<T>(p: seq<T>, lists: seq<seq<nat>>, perms: seq<seq<nat>>, m: nat, i: nat)
    requires ValidPlan(lists, perms, |p|) && Tiling(lists, |p|) && m < |lists| && i < |lists[m]|
    ensures perms[m][i] < |lists[m]| && BlockFold(p, lists, perms)[lists[m][i]] == p[lists[m][perms[m][i]]]
    decreases |lists|
  {
    var n := |lists| - 1;
    var front, fperms := lists[..n], perms[..n];
    ValidPlanPrefix(lists, perms, |p|, n);
    TilingPrefix(lists, |p|, n);
    var f := BlockFold(p, front, fperms);
    if m < n {
      assert lists[m][i] !in lists[n] by {
        assert lists == front + [lists[n]];
        TilingLast(front, lists[n], |p|);
        assert front[m] == lists[m];
      }
      assert front[m] == lists[m] && fperms[m] == perms[m];
      BlockFoldEntry(p, front, fperms, m, i);
      BlockStepOutside(f, lists[n], perms[n], lists[m][i]);
    } else {
      BlockStepInside(f, lists[n], perms[n], i);
      var src := lists[n][perms[n][i]];
      assert Untouched(front, src) by {
        assert lists == front + [lists[n]];
        TilingLast(front, lists[n], |p|);
      }
      BlockFoldUntouched(p, front, fperms, src);
    }
  }

  /** Disjoint blocks: block m ends up holding its own original elements
      rearranged by perms[m], and positions outside every block keep theirs. */
  lemma BlockFoldAt<T>(p: seq<T>, lists: seq<seq<nat>>, perms: seq<seq<nat>>)
    requires ValidPlan(lists, perms, |p|) && Tiling(lists, |p|)
    ensures forall m, i :: 0 <= m < |lists| && 0 <= i < |lists[m]| ==>
      perms[m][i] < |lists[m]| && BlockFold(p, lists, perms)[lists[m][i]] == p[lists[m][perms[m][i]]]
    ensures forall q :: 0 <= q < |p| && Untouched(lists, q) ==> BlockFold(p, lists, perms)[q] == p[q]
  {
    forall m, i | 0 <= m < |lists| && 0 <= i < |lists[m]|
      ensures perms[m][i] < |lists[m]| && BlockFold(p, lists, perms)[lists[m][i]] == p[lists[m][perms[m][i]]]
    {
      BlockFoldEntry(p, lists, perms, m, i);
    }
    forall q | 0 <= q < |p| && Untouched(lists, q) ensures BlockFold(p, lists, perms)[q] == p[q] {
      BlockFoldUntouched(p, lists, perms, q);
    }
  }

  /** The nested `ly`, `lx` loops that list the pixel indices of tile (tx, ty). */
  method CollectBlockIndices(width: nat, blockSize: nat, tx: nat, ty: nat) returns (blockIndices: seq<nat>)
    ensures blockIndices == BlockIndexList(width, blockSize, tx, ty)
  {
    blockIndices := [];
    for ly := 0 to blockSize
      invariant blockIndices == BlockRows(width, blockSize, tx, ty, ly)
    {
      ghost var before := blockIndices;
      ghost var row := BlockRow(width, blockSize, tx, ty * blockSize + ly);
      for lx := 0 to blockSize
        invariant blockIndices == before + row[..lx]
      {
        var x := tx * blockSize + lx;
        var y := ty * blockSize + ly;
        assert row[..lx + 1] == row[..lx] + [y * width + x];
        blockIndices := blockIndices + [y * width + x];
      }
      assert row[..blockSize] == row;
    }
  }

  /** Copies the pixels at the given indices, in order, into a fresh
      buffer (`tempPixels`). */
  method GatherPixels(pixels: array<Byte>, indices: seq<nat>) returns (temp: array<Byte>)
    requires IndicesBelow(indices, pixels.Length / 4)
    ensures fresh(temp) && temp.Length == 4 * |indices|
    ensures Pixels(temp[..]) == Gather(Pixels(pixels[..]), indices)
  {
    temp := new Byte[|indices| * 4](_ => 0);
    for i := 0 to |indices|
      invariant forall m :: 0 <= m < i ==> Pixels(temp[..])[m] == Pixels(pixels[..])[indices[m]]
    {
      ghost var before := temp[..];
      CopyPixel(pixels, indices[i], temp, i);
      PixelsSetPixel(before, i, PixelAt(pixels[..], indices[i]));
    }
  }

  /** Writes pixel i of temp to pixel indices[i], for every i in order. */
  method ScatterPixels(temp: array<Byte>, indices: seq<nat>, pixels: array<Byte>)
    requires temp != pixels && temp.Length == 4 * |indices|
    requires IndicesBelow(indices, pixels.Length / 4)
    modifies pixels
    ensures Pixels(pixels[..]) == Scatter(Pixels(old(pixels[..])), indices, Pixels(temp[..]))
  {
    ghost var p0 := Pixels(pixels[..]);
    ghost var v := Pixels(temp[..]);
    for i := 0 to |indices|
      invariant Pixels(pixels[..]) == Scatter(p0, indices[..i], v[..i])
    {
      ghost var before := pixels[..];
      CopyPixel(temp, i, pixels, indices[i]);
      PixelsSetPixel(before, indices[i], PixelAt(temp[..], i));
      assert indices[..i + 1][..i] == indices[..i];
      assert v[..i + 1][..i] == v[..i];
    }
    assert indices[..|indices|] == indices;
    assert v[..|indices|] == v;
  }

  /** The body of the tile loops for tile (tx, ty): collect its indices,
      shuffle them, read the pixels out in shuffled order and write them
      back in block order. */
  method ShuffleBlock(pixels: array<Byte>, width: nat, height: nat, blockSize: nat, tx: nat, ty: nat, perm: seq<nat>)
    requires 0 < blockSize && tx < width / blockSize && ty < height / blockSize
    requires IsBuffer(pixels[..], width, height)
    requires IsPermutation(perm, blockSize * blockSize)
    modifies pixels
    ensures IndicesBelow(BlockIndexList(width, blockSize, tx, ty), |Pixels(old(pixels[..]))|) &&
      Pixels(pixels[..]) == BlockStep(Pixels(old(pixels[..])), BlockIndexList(width, blockSize, tx, ty), perm)
  {
    BlockIndexListFacts(width, height, blockSize, tx, ty);
    WholePixels(pixels[..], width * height);
    var blockIndices := CollectBlockIndices(width, blockSize, tx, ty);
    PermutationBounded(perm, |blockIndices|);
    var shuffledIndices := Gather(blockIndices, perm);
    var temp := GatherPixels(pixels, shuffledIndices);
    ScatterPixels(temp, blockIndices, pixels);
  }

  /** One arrangement of blockSize * blockSize pixels per tile of the grid. */
  predicate ValidBlockPerms(perms: seq<seq<nat>>, width: nat, height: nat, blockSize: nat)
    requires 0 < blockSize
  {
    |perms| == (width / blockSize) * (height / blockSize) &&
    forall k :: 0 <= k < |perms| ==> IsPermutation(perms[k], blockSize * blockSize)
  }

  /** The tiles of the grid, each with its arrangement, form a plan over the image. */
  lemma GridPlan(width: nat, height: nat, blockSize: nat, perms: seq<seq<nat>>)
    requires 0 < blockSize && ValidBlockPerms(perms, width, height, blockSize)
    ensures ValidPlan(BlockLists(width, height, blockSize), perms, width * height)
    ensures Tiling(BlockLists(width, height, blockSize), width * height)
  {
    BlockListsTiling(width, height, blockSize);
  }

  /** The `bx` loop for tile row ty: it processes tiles Offset(blocksX, 0, ty)
      up to Offset(blocksX, 0, ty + 1) of the grid, in order. */
  method ShuffleTileRow(pixels: array<Byte>, width: nat, height: nat, blockSize: nat, perms: seq<seq<nat>>,
                        ty: nat, ghost p0: seq<Pixel>)
    requires 0 < blockSize && IsBuffer(pixels[..], width, height) && |p0| == width * height
    requires ValidBlockPerms(perms, width, height, blockSize)
    requires ValidPlan(BlockLists(width, height, blockSize), perms, |p0|)
    requires ty < height / blockSize
    requires Offset(width / blockSize, width / blockSize, ty) <= |perms|
    requires Pixels(pixels[..]) == FoldPrefix(p0, BlockLists(width, height, blockSize), perms, Offset(width / blockSize, 0, ty))
    modifies pixels
    ensures Pixels(pixels[..]) == FoldPrefix(p0, BlockLists(width, height, blockSize), perms, Offset(width / blockSize, width / blockSize, ty))
  {
    ghost var lists := BlockLists(width, height, blockSize);
    var blocksX := width / blockSize;
    var processedBlocks := Offset(blocksX, 0, ty);
    for tx := 0 to blocksX
      invariant processedBlocks == Offset(blocksX, tx, ty)
      invariant Pixels(pixels[..]) == FoldPrefix(p0, lists, perms, processedBlocks)
    {
      OffsetCoords(blocksX, tx, ty);
      assert lists[processedBlocks] == BlockIndexList(width, blockSize, tx, ty);
      ShuffleBlock(pixels, width, height, blockSize, tx, ty, perms[processedBlocks]);
      BlockFoldPrefix(p0, lists, perms, processedBlocks);
      processedBlocks := processedBlocks + 1;
    }
  }

  /** The `by` loop over the tile rows of the working copy. */
  method ShuffleBlocks(pixels: array<Byte>, width: nat, height: nat, blockSize: nat, perms: seq<seq<nat>>)
    requires 0 < blockSize && IsBuffer(pixels[..], width, height)
    requires ValidBlockPerms(perms, width, height, blockSize)
    modifies pixels
    ensures ValidPlan(BlockLists(width, height, blockSize), perms, |Pixels(old(pixels[..]))|) &&
      Pixels(pixels[..]) == BlockFold(Pixels(old(pixels[..])), BlockLists(width, height, blockSize), perms)
  {
    ghost var p0 := Pixels(pixels[..]);
    ghost var lists := BlockLists(width, height, blockSize);
    GridPlan(width, height, blockSize, perms);
    var blocksX := width / blockSize;
    var blocksY := height / blockSize;
    for ty := 0 to blocksY
      invariant Offset(blocksX, 0, ty) <= |lists|
      invariant Pixels(pixels[..]) == FoldPrefix(p0, lists, perms, Offset(blocksX, 0, ty))
    {
      NextRow(blocksX, ty);
      RowStart(blocksX, ty + 1, blocksY);
      ShuffleTileRow(pixels, width, height, blockSize, perms, ty, p0);
    }
    RowStart(blocksX, blocksY, blocksY);
    assert lists[..Offset(blocksX, 0, blocksY)] == lists && perms[..Offset(blocksX, 0, blocksY)] == perms;
  }

  /** The bined shuffle of the image: every tile of the grid rearranged by its
      arrangement, as bytes. */
  method BinedShuffle(pixelData: seq<Byte>, width: nat, height: nat, blockSize: nat, perms: seq<seq<nat>>)
    returns (result: seq<Byte>)
    requires 0 < blockSize && IsBuffer(pixelData, width, height)
    requires ValidBlockPerms(perms, width, height, blockSize)
    ensures IsBuffer(result, width, height)
    ensures ValidPlan(BlockLists(width, height, blockSize), perms, |Pixels(pixelData)|)
    ensures result == Flatten(BlockFold(Pixels(pixelData), BlockLists(width, height, blockSize), perms))
    ensures multiset(Pixels(result)) == multiset(Pixels(pixelData))
  {
    var pixels := ToArray(pixelData);
    ShuffleBlocks(pixels, width, height, blockSize, perms);
    result := pixels[..];
    WholePixels(result, width * height);
    FlattenOfPixels(result);
    BlockFoldMultiset(Pixels(pixelData), BlockLists(width, height, blockSize), perms);
  }

  /** With disjoint blocks, block k ends up holding its own original
      elements, rearranged by perms[k]. */
  lemma BlockPermuted<T>(p: seq<T>, lists: seq<seq<nat>>, perms: seq<seq<nat>>, k: nat)
    requires ValidPlan(lists, perms, |p|) && Tiling(lists, |p|) && k < |lists|
    ensures IndicesBelow(perms[k], |lists[k]|)
    ensures Gather(BlockFold(p, lists, perms), lists[k]) == Gather(Gather(p, lists[k]), perms[k])
    ensures multiset(Gather(BlockFold(p, lists, perms), lists[k])) == multiset(Gather(p, lists[k]))
  {
    BlockFoldAt(p, lists, perms);
    PermutationBounded(perms[k], |lists[k]|);
    assert Gather(BlockFold(p, lists, perms), lists[k]) == Gather(Gather(p, lists[k]), perms[k]);
    PermutedMultiset(Gather(p, lists[k]), perms[k]);
  }

  /** Tile (tx, ty) of the grid has number Offset(blocksX, tx, ty) and is
      rearranged by the arrangement of that number: it ends up holding its
      own original pixels, in the order the arrangement picks. */
  lemma TilePermuted(p: seq<Pixel>, width: nat, height: nat, blockSize: nat, perms: seq<seq<nat>>, tx: nat, ty: nat)
    requires 0 < blockSize && |p| == width * height
    requires ValidBlockPerms(perms, width, height, blockSize)
    requires tx < width / blockSize && ty < height / blockSize
    ensures ValidPlan(BlockLists(width, height, blockSize), perms, |p|) &&
      IndicesBelow(BlockIndexList(width, blockSize, tx, ty), |p|) &&
      Offset(width / blockSize, tx, ty) < |perms| &&
      IsPermutation(perms[Offset(width / blockSize, tx, ty)], |BlockIndexList(width, blockSize, tx, ty)|) &&
      IndicesBelow(perms[Offset(width / blockSize, tx, ty)], |BlockIndexList(width, blockSize, tx, ty)|)
    ensures
      var list := BlockIndexList(width, blockSize, tx, ty);
      var result := BlockFold(p, BlockLists(width, height, blockSize), perms);
      Gather(result, list) == Gather(Gather(p, list), perms[Offset(width / blockSize, tx, ty)]) &&
      multiset(Gather(result, list)) == multiset(Gather(p, list))
  {
    GridPlan(width, height, blockSize, perms);
    var k := TileNumber(width, height, blockSize, tx, ty);
    BlockPermuted(p, BlockLists(width, height, blockSize), perms, k);
  }

  /** Pixels in the uncovered strip keep their value. */
  lemma RemainderUnchanged(p: seq<Pixel>, width: nat, height: nat, blockSize: nat, perms: seq<seq<nat>>, q: nat)
    requires 0 < blockSize && |p| == width * height
    requires ValidBlockPerms(perms, width, height, blockSize)
    requires q < width * height
    ensures 0 < width
    ensures InRemainder(width, height, blockSize, q) ==>
      ValidPlan(BlockLists(width, height, blockSize), perms, |p|) &&
      BlockFold(p, BlockLists(width, height, blockSize), perms)[q] == p[q]
  {
    Coords(q, width, height);
    GridPlan(width, height, blockSize, perms);
    if InRemainder(width, height, blockSize, q) {
      RemainderUntouched(width, height, blockSize, q);
      BlockFoldUntouched(p, BlockLists(width, height, blockSize), perms, q);
    }
  }

  /** Every pixel outside the uncovered strip receives a pixel of its own tile. */
  lemma GridPixelStaysInTile(p: seq<Pixel>, width: nat, height: nat, blockSize: nat, perms: seq<seq<nat>>, q: nat)
    requires 0 < blockSize && |p| == width * height
    requires ValidBlockPerms(perms, width, height, blockSize)
    requires q < width * height
    ensures 0 < width
    ensures !InRemainder(width, height, blockSize, q) ==>
      ValidPlan(BlockLists(width, height, blockSize), perms, |p|) &&
      exists r :: 0 <= r < |p| && TileOf(width, blockSize, r) == TileOf(width, blockSize, q) &&
        BlockFold(p, BlockLists(width, height, blockSize), perms)[q] == p[r]
  {
    Coords(q, width, height);
    var lists := BlockLists(width, height, blockSize);
    GridPlan(width, height, blockSize, perms);
    if !InRemainder(width, height, blockSize, q) {
      var tx, ty, i := GridCell(width, height, blockSize, q);
      var k := TileNumber(width, height, blockSize, tx, ty);
      BlockFoldEntry(p, lists, perms, k, i);
      BlockListFacts(width, height, blockSize, k);
      var r := lists[k][perms[k][i]];
      assert InBlock(width, blockSize, tx, ty, r);
      assert TileOf(width, blockSize, r) == (tx, ty);
      assert BlockFold(p, lists, perms)[q] == p[r];
    }
  }
}

/** Pixel addressing and the division of a `width x height` image into
    `blockSize x blockSize` tiles that the bined effects use: `blocksX =
    width / blockSize` and `blocksY = height / blockSize` (truncating), so a
    strip on the right and at the bottom may belong to no tile. */
module BlockGrid {
  import opened Permutations

  /** Pixel index of (x, y) in a row-major image of the given width. */
  function Offset(width: nat, x: nat, y: nat): nat
  {
    y * width + x
  }

  /** Position of local pixel (lx, ly) in a block's row-major index list. */
  function LocalIndex(blockSize: nat, lx: nat, ly: nat): nat
  {
    ly * blockSize + lx
  }

  lemma MulLe(a: nat, b: nat, w: nat)
    requires a <= b
    ensures a * w <= b * w
  {
  }

  /** Euclidean division is determined by quotient and remainder. */
  lemma DivModUnique(n: nat, w: nat, q: nat, r: nat)
    requires 0 < w && r < w && n == q * w + r
    ensures n / w == q && n % w == r
  {
    var q', r' := n / w, n % w;
    if q' < q {
      MulLe(q' + 1, q, w);
      assert false;
    } else if q' > q {
      MulLe(q + 1, q', w);
      assert false;
    }
  }

  /** x below the width is the column and y the row of Offset(width, x, y). */
  lemma OffsetCoords(width: nat, x: nat, y: nat)
    requires x < width
    ensures Offset(width, x, y) % width == x && Offset(width, x, y) / width == y
  {
    DivModUnique(Offset(width, x, y), width, y, x);
  }

  /** Every pixel of the image has an index below width * height. */
  lemma OffsetBound(width: nat, height: nat, x: nat, y: nat)
    requires x < width && y < height
    ensures Offset(width, x, y) < width * height
  {
    MulLe(y + 1, height, width);
  }

  /** The index after the last pixel of row y is the first pixel of row y + 1. */
  lemma NextRow(width: nat, y: nat)
    ensures Offset(width, width, y) == Offset(width, 0, y + 1)
  {
  }

  /** Row y starts at or before the end of an image of height rows, and row
      height starts exactly at its end. */
  lemma RowStart(width: nat, y: nat, height: nat)
    requires y <= height
    ensures Offset(width, 0, y) <= width * height
    ensures y == height ==> Offset(width, 0, y) == width * height
  {
    MulLe(y, height, width);
  }

  /** Every index below width * height has a column below the width and a row
      below the height, and is the Offset of that column and row. */
  lemma Coords(q: nat, width: nat, height: nat)
    requires q < width * height
    ensures 0 < width && q % width < width && q / width < height
    ensures Offset(width, q % width, q / width) == q
  {
    if 0 < width && q / width >= height {
      MulLe(height, q / width, width);
      assert false;
    }
  }

  /** An index whose row is smaller comes first. */
  lemma RowOrder(a: nat, b: nat, w: nat)
    requires 0 < w && a / w < b / w
    ensures a < b
  {
    MulLe(a / w + 1, b / w, w);
  }

  /** An index in a row below the height is below width * height. */
  lemma RowBound(q: nat, w: nat, h: nat)
    requires 0 < w && q / w < h
    ensures q < w * h
  {
    MulLe(q / w + 1, h, w);
  }

  /** The local index of a pixel in the first `rows` rows is below rows * blockSize,
      and in the last of them it comes after the earlier rows. */
  lemma LocalIndexBound(blockSize: nat, lx: nat, ly: nat, rows: nat)
    requires ly < rows && lx < blockSize
    ensures LocalIndex(blockSize, lx, ly) < rows * blockSize
    ensures ly < rows - 1 ==> LocalIndex(blockSize, lx, ly) < (rows - 1) * blockSize
    ensures ly == rows - 1 ==> LocalIndex(blockSize, lx, ly) == (rows - 1) * blockSize + lx
  {
    MulLe(ly + 1, rows, blockSize);
    if ly < rows - 1 {
      MulLe(ly + 1, rows - 1, blockSize);
    }
  }

  /** Local row ly + 1 starts blockSize entries after local row ly, and no
      later than the end of the block. */
  lemma NextLocalRow(blockSize: nat, ly: nat)
    requires ly < blockSize
    ensures LocalIndex(blockSize, 0, ly) + blockSize == LocalIndex(blockSize, 0, ly + 1) <= blockSize * blockSize
  {
    MulLe(ly + 1, blockSize, blockSize);
  }

  /** A value below n whole blocks lies in a block numbered below n. */
  lemma DivBound(a: nat, blockSize: nat, n: nat)
    requires 0 < blockSize && a < n * blockSize
    ensures a / blockSize < n
  {
    if a / blockSize >= n {
      MulLe(n, a / blockSize, blockSize);
      assert false;
    }
  }

  /** A whole block fits in front of the first uncovered column. */
  lemma BlockFits(tx: nat, size: nat, bs: nat)
    requires 0 < bs && tx < size / bs
    ensures (tx + 1) * bs <= size && tx * bs + bs <= size
  {
    MulLe(tx + 1, size / bs, bs);
  }

  /** Row y of block column tx: the indices of (tx * blockSize + lx, y). */
  function BlockRow(width: nat, blockSize: nat, tx: nat, y: nat): (r: seq<nat>)
    ensures |r| == blockSize
  {
    seq(blockSize, lx => y * width + tx * blockSize + lx)
  }

  /** The first `rows` rows of tile (tx, ty), one row after the other. */
  function BlockRows(width: nat, blockSize: nat, tx: nat, ty: nat, rows: nat): (r: seq<nat>)
    ensures |r| == rows * blockSize
  {
    if rows == 0 then []
    else BlockRows(width, blockSize, tx, ty, rows - 1) + BlockRow(width, blockSize, tx, ty * blockSize + rows - 1)
  }

  /** The pixel indices of tile (tx, ty) in row-major order, as the nested
      `ly`, `lx` loops of the bined shuffle collect them. */
  function BlockIndexList(width: nat, blockSize: nat, tx: nat, ty: nat): seq<nat>
  {
    BlockRows(width, blockSize, tx, ty, blockSize)
  }

  /** Local pixel (lx, ly) of the block sits at LocalIndex(lx, ly) of the list. */
  lemma {:induction false} BlockRowsAt(width: nat, blockSize: nat, tx: nat, ty: nat, rows: nat, lx: nat, ly: nat)
    requires ly < rows && lx < blockSize
    ensures LocalIndex(blockSize, lx, ly) < rows * blockSize
    ensures BlockRows(width, blockSize, tx, ty, rows)[LocalIndex(blockSize, lx, ly)]
         == Offset(width, tx * blockSize + lx, ty * blockSize + ly)
  {
    LocalIndexBound(blockSize, lx, ly, rows);
    var front := BlockRows(width, blockSize, tx, ty, rows - 1);
    var row := BlockRow(width, blockSize, tx, ty * blockSize + rows - 1);
    assert BlockRows(width, blockSize, tx, ty, rows) == front + row;
    if ly < rows - 1 {
      BlockRowsAt(width, blockSize, tx, ty, rows - 1, lx, ly);
    } else {
      assert row[lx] == Offset(width, tx * blockSize + lx, ty * blockSize + ly);
    }
  }

  /** q lies in tile (tx, ty): its column divided by the block size is tx
      and its row divided by the block size is ty. */
  predicate InBlock(width: nat, blockSize: nat, tx: nat, ty: nat, q: nat)
    requires 0 < width && 0 < blockSize
  {
    (q % width) / blockSize == tx && (q / width) / blockSize == ty
  }

  /** Every entry of row y lies in tile (tx, ty) and in row y. */
  lemma BlockRowFacts(width: nat, blockSize: nat, tx: nat, ty: nat, y: nat)
    requires 0 < width && 0 < blockSize && tx * blockSize + blockSize <= width
    requires ty * blockSize <= y < ty * blockSize + blockSize
    ensures forall k :: 0 <= k < blockSize ==>
      var q := BlockRow(width, blockSize, tx, y)[k];
      InBlock(width, blockSize, tx, ty, q) && q / width == y
    ensures forall a, b :: 0 <= a < b < blockSize ==>
      BlockRow(width, blockSize, tx, y)[a] < BlockRow(width, blockSize, tx, y)[b]
  {
    forall k | 0 <= k < blockSize
      ensures InBlock(width, blockSize, tx, ty, BlockRow(width, blockSize, tx, y)[k])
      ensures BlockRow(width, blockSize, tx, y)[k] / width == y
    {
      assert BlockRow(width, blockSize, tx, y)[k] == Offset(width, tx * blockSize + k, y);
      OffsetCoords(width, tx * blockSize + k, y);
      DivModUnique(tx * blockSize + k, blockSize, tx, k);
      DivModUnique(y, blockSize, ty, y - ty * blockSize);
    }
  }

  /** The first `rows` rows of a block lie in the block, in rows below
      ty * blockSize + rows, and strictly increase. */
  lemma {:induction false} BlockRowsFacts(width: nat, blockSize: nat, tx: nat, ty: nat, rows: nat)
    requires 0 < width && 0 < blockSize && tx * blockSize + blockSize <= width && rows <= blockSize
    ensures forall k :: 0 <= k < |BlockRows(width, blockSize, tx, ty, rows)| ==>
      var q := BlockRows(width, blockSize, tx, ty, rows)[k];
      InBlock(width, blockSize, tx, ty, q) && q / width < ty * blockSize + rows
    ensures forall a, b :: 0 <= a < b < |BlockRows(width, blockSize, tx, ty, rows)| ==>
      BlockRows(width, blockSize, tx, ty, rows)[a] < BlockRows(width, blockSize, tx, ty, rows)[b]
  {
    if rows > 0 {
      var front := BlockRows(width, blockSize, tx, ty, rows - 1);
      var y := ty * blockSize + rows - 1;
      var row := BlockRow(width, blockSize, tx, y);
      var all := BlockRows(width, blockSize, tx, ty, rows);
      assert all == front + row;
      BlockRowsFacts(width, blockSize, tx, ty, rows - 1);
      BlockRowFacts(width, blockSize, tx, ty, y);
      forall a, b | 0 <= a < b < |all| ensures all[a] < all[b] {
        if a < |front| <= b {
          RowOrder(front[a], row[b - |front|], width);
        }
      }
    }
  }

  /** Everything the bined effects rely on about one block's index list. */
  lemma BlockIndexListFacts(width: nat, height: nat, blockSize: nat, tx: nat, ty: nat)
    requires 0 < blockSize && tx < width / blockSize && ty < height / blockSize
    ensures 0 < width
    ensures |BlockIndexList(width, blockSize, tx, ty)| == blockSize * blockSize
    ensures IndicesBelow(BlockIndexList(width, blockSize, tx, ty), width * height)
    ensures Injective(BlockIndexList(width, blockSize, tx, ty))
    ensures forall k :: 0 <= k < |BlockIndexList(width, blockSize, tx, ty)| ==>
      InBlock(width, blockSize, tx, ty, BlockIndexList(width, blockSize, tx, ty)[k])
  {
    BlockFits(tx, width, blockSize);
    BlockFits(ty, height, blockSize);
    var list := BlockIndexList(width, blockSize, tx, ty);
    BlockRowsFacts(width, blockSize, tx, ty, blockSize);
    forall k | 0 <= k < |list| ensures list[k] < width * height {
      RowBound(list[k], width, height);
    }
  }

  /** The lists are index lists below n, none repeats an index, and no two
      of them share one. */
  predicate Tiling(lists: seq<seq<nat>>, n: nat)
  {
    (forall k :: 0 <= k < |lists| ==> IndicesBelow(lists[k], n) && Injective(lists[k])) &&
    (forall k1, k2, i1, i2 ::
       0 <= k1 < |lists| && 0 <= k2 < |lists| && k1 != k2 && 0 <= i1 < |lists[k1]| && 0 <= i2 < |lists[k2]|
       ==> lists[k1][i1] != lists[k2][i2])
  }

  /** No list holds q. */
  predicate Untouched(lists: seq<seq<nat>>, q: nat)
  {
    forall m :: 0 <= m < |lists| ==> q !in lists[m]
  }

  /** The first k lists of a tiling are a tiling. */
  lemma TilingPrefix(lists: seq<seq<nat>>, n: nat, k: nat)
    requires Tiling(lists, n) && k <= |lists|
    ensures Tiling(lists[..k], n)
  {
    forall m | 0 <= m < k ensures lists[..k][m] == lists[m] {
    }
  }

  /** In a tiling, an entry of an earlier list is not in the last list, and
      an entry of the last list is untouched by the earlier lists. */
  lemma TilingLast(front: seq<seq<nat>>, last: seq<nat>, n: nat)
    requires Tiling(front + [last], n)
    ensures forall m, i :: 0 <= m < |front| && 0 <= i < |front[m]| ==> front[m][i] !in last
    ensures forall j :: 0 <= j < |last| ==> Untouched(front, last[j])
  {
    var lists := front + [last];
    assert lists[|front|] == last;
    forall m, i | 0 <= m < |front| && 0 <= i < |front[m]| ensures front[m][i] !in last {
      assert lists[m] == front[m];
      forall i2 | 0 <= i2 < |last| ensures last[i2] != front[m][i] {
        assert lists[|front|][i2] != lists[m][i];
      }
    }
    forall j | 0 <= j < |last| ensures Untouched(front, last[j]) {
      forall m2 | 0 <= m2 < |front| ensures last[j] !in front[m2] {
        assert lists[m2] == front[m2];
        forall i2 | 0 <= i2 < |front[m2]| ensures front[m2][i2] != last[j] {
          assert lists[m2][i2] != lists[|front|][j];
        }
      }
    }
  }

  /** The index lists of all blocks, in the order the bined loops visit them:
      the `by` loop outside the `bx` loop, so tile (tx, ty) is number ty * blocksX + tx. */
  function BlockLists(width: nat, height: nat, blockSize: nat): (r: seq<seq<nat>>)
    requires 0 < blockSize
    ensures |r| == (width / blockSize) * (height / blockSize)
  {
    var blocksX := width / blockSize;
    if blocksX == 0 then []
    else
      seq(blocksX * (height / blockSize), k requires 0 <= k < blocksX * (height / blockSize) =>
        BlockIndexList(width, blockSize, k % blocksX, k / blocksX))
  }

  /** Block number k is block (k % blocksX, k / blocksX) of the grid. */
  lemma BlockNumber(width: nat, height: nat, blockSize: nat, k: nat)
    requires 0 < blockSize && k < (width / blockSize) * (height / blockSize)
    ensures 0 < width / blockSize
    ensures k % (width / blockSize) < width / blockSize && k / (width / blockSize) < height / blockSize
  {
    var blocksX := width / blockSize;
    if k / blocksX >= height / blockSize {
      MulLe(height / blockSize, k / blocksX, blocksX);
      assert false;
    }
  }

  /** Distinct block numbers name distinct blocks. */
  lemma BlockNumberUnique(k1: nat, k2: nat, blocksX: nat)
    requires 0 < blocksX && k1 % blocksX == k2 % blocksX && k1 / blocksX == k2 / blocksX
    ensures k1 == k2
  {
    assert k1 == (k1 / blocksX) * blocksX + k1 % blocksX;
    assert k2 == (k2 / blocksX) * blocksX + k2 % blocksX;
  }

  /** List k of the grid is the index list of block (k % blocksX, k / blocksX). */
  lemma BlockListFacts(width: nat, height: nat, blockSize: nat, k: nat)
    requires 0 < blockSize && k < (width / blockSize) * (height / blockSize)
    ensures 0 < width && 0 < width / blockSize
    ensures var list := BlockLists(width, height, blockSize)[k];
      |list| == blockSize * blockSize && IndicesBelow(list, width * height) && Injective(list) &&
      forall i :: 0 <= i < |list| ==>
        InBlock(width, blockSize, k % (width / blockSize), k / (width / blockSize), list[i])
  {
    BlockNumber(width, height, blockSize, k);
    BlockIndexListFacts(width, height, blockSize, k % (width / blockSize), k / (width / blockSize));
  }

  /** The blocks of the grid tile the image. */
  lemma BlockListsTiling(width: nat, height: nat, blockSize: nat)
    requires 0 < blockSize
    ensures Tiling(BlockLists(width, height, blockSize), width * height)
    ensures forall k :: 0 <= k < |BlockLists(width, height, blockSize)| ==>
      |BlockLists(width, height, blockSize)[k]| == blockSize * blockSize
  {
    var lists := BlockLists(width, height, blockSize);
    forall k | 0 <= k < |lists|
      ensures IndicesBelow(lists[k], width * height) && Injective(lists[k])
      ensures |lists[k]| == blockSize * blockSize
    {
      BlockListFacts(width, height, blockSize, k);
    }
    forall k1, k2, i1, i2 |
        0 <= k1 < |lists| && 0 <= k2 < |lists| && k1 != k2 && 0 <= i1 < |lists[k1]| && 0 <= i2 < |lists[k2]|
      ensures lists[k1][i1] != lists[k2][i2]
    {
      BlockListFacts(width, height, blockSize, k1);
      BlockListFacts(width, height, blockSize, k2);
      if lists[k1][i1] == lists[k2][i2] {
        BlockNumberUnique(k1, k2, width / blockSize);
      }
    }
  }

  /** The block column and block row of pixel q. */
  function TileOf(width: nat, blockSize: nat, q: nat): (int, int)
    requires 0 < width && 0 < blockSize
  {
    ((q % width) / blockSize, (q / width) / blockSize)
  }

  /** q lies in the strip on the right or at the bottom that no tile covers. */
  predicate InRemainder(width: nat, height: nat, blockSize: nat, q: nat)
    requires 0 < width && 0 < blockSize
  {
    q % width >= (width / blockSize) * blockSize || q / width >= (height / blockSize) * blockSize
  }

  /** Tile (tx, ty) is list number Offset(blocksX, tx, ty) of the grid. */
  lemma TileNumber(width: nat, height: nat, blockSize: nat, tx: nat, ty: nat) returns (k: nat)
    requires 0 < blockSize && tx < width / blockSize && ty < height / blockSize
    ensures k == Offset(width / blockSize, tx, ty)
    ensures k < |BlockLists(width, height, blockSize)|
    ensures BlockLists(width, height, blockSize)[k] == BlockIndexList(width, blockSize, tx, ty)
  {
    k := Offset(width / blockSize, tx, ty);
    OffsetBound(width / blockSize, height / blockSize, tx, ty);
    OffsetCoords(width / blockSize, tx, ty);
  }

  /** A value is its block number times the block size plus its place in the block. */
  lemma DivMod(a: nat, blockSize: nat)
    requires 0 < blockSize
    ensures a == (a / blockSize) * blockSize + a % blockSize && a % blockSize < blockSize
  {
  }

  /** A coordinate below n whole blocks splits into a block number below n
      and a place in the block. */
  lemma SplitCoord(a: nat, blockSize: nat, n: nat)
    requires 0 < blockSize && a < n * blockSize
    ensures a / blockSize < n && a % blockSize < blockSize
    ensures (a / blockSize) * blockSize + a % blockSize == a
  {
    DivBound(a, blockSize, n);
    DivMod(a, blockSize);
  }

  /** Column x below blocksX whole blocks and row y below blocksY whole
      blocks are local pixel (x % blockSize, y % blockSize) of tile
      (x / blockSize, y / blockSize). */
  lemma CellIndex(width: nat, blockSize: nat, blocksX: nat, blocksY: nat, x: nat, y: nat) returns (tx: nat, ty: nat, i: nat)
    requires 0 < blockSize && x < blocksX * blockSize && y < blocksY * blockSize
    ensures tx == x / blockSize && ty == y / blockSize && tx < blocksX && ty < blocksY
    ensures i < |BlockIndexList(width, blockSize, tx, ty)| && BlockIndexList(width, blockSize, tx, ty)[i] == Offset(width, x, y)
  {
    SplitCoord(x, blockSize, blocksX);
    SplitCoord(y, blockSize, blocksY);
    tx, ty := x / blockSize, y / blockSize;
    var lx, ly := x % blockSize, y % blockSize;
    i := LocalIndex(blockSize, lx, ly);
    BlockRowsAt(width, blockSize, tx, ty, blockSize, lx, ly);
  }

  /** A pixel outside the uncovered strip is local pixel (x % blockSize,
      y % blockSize) of tile (x / blockSize, y / blockSize), where x and y are
      its column and row. */
  lemma GridCell(width: nat, height: nat, blockSize: nat, q: nat) returns (tx: nat, ty: nat, i: nat)
    requires 0 < blockSize && q < width * height
    requires 0 < width && !InRemainder(width, height, blockSize, q)
    ensures TileOf(width, blockSize, q) == (tx, ty)
    ensures tx < width / blockSize && ty < height / blockSize
    ensures i < |BlockIndexList(width, blockSize, tx, ty)| && BlockIndexList(width, blockSize, tx, ty)[i] == q
  {
    Coords(q, width, height);
    var x, y := q % width, q / width;
    assert x < (width / blockSize) * blockSize && y < (height / blockSize) * blockSize;
    tx, ty, i := CellIndex(width, blockSize, width / blockSize, height / blockSize, x, y);
  }

  /** No tile of the grid holds a pixel of the uncovered strip. */
  lemma RemainderUntouched(width: nat, height: nat, blockSize: nat, q: nat)
    requires 0 < blockSize && 0 < width && InRemainder(width, height, blockSize, q)
    ensures Untouched(BlockLists(width, height, blockSize), q)
  {
    var lists := BlockLists(width, height, blockSize);
    forall m | 0 <= m < |lists| ensures q !in lists[m] {
      RemainderNotInList(width, height, blockSize, q, m);
    }
  }

  /** List m of the grid does not hold a pixel of the uncovered strip. */
  lemma RemainderNotInList(width: nat, height: nat, blockSize: nat, q: nat, m: nat)
    requires 0 < blockSize && 0 < width && InRemainder(width, height, blockSize, q)
    requires m < (width / blockSize) * (height / blockSize)
    ensures q !in BlockLists(width, height, blockSize)[m]
  {
    var list := BlockLists(width, height, blockSize)[m];
    BlockListFacts(width, height, blockSize, m);
    BlockNumber(width, height, blockSize, m);
    var tx, ty := m % (width / blockSize), m / (width / blockSize);
    forall i | 0 <= i < |list| ensures list[i] != q {
      assert InBlock(width, blockSize, tx, ty, list[i]);
      RowBound(list[i] % width, blockSize, width / blockSize);
      RowBound(list[i] / width, blockSize, height / blockSize);
    }
  }
}

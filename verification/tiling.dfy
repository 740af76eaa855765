/** `slice_image_in_tiles`, as written twice: once over OpenCV/NumPy arrays
    and once over Pillow images. Only the window arithmetic is modelled:
    the stride rule, the sweep with its two breaks, the clamped offsets and
    the scale factors a detector's coordinates are multiplied by. */
module Tiling {
  import opened Common

  /** Which of the two implementations: they differ only in the size of
      the crop taken at a clamped offset. */
  datatype Backend = OpenCv | Pillow

  /** The arguments of `slice_image_in_tiles` that the arithmetic uses. */
  datatype Setup = Setup(width: int, height: int, tileHeight: int, tileWidth: int,
                         targetMaxDim: int, overlap: int)

  /** Tile sizes and the detector's input size are positive. */
  predicate ValidSetup(s: Setup)
  {
    s.tileHeight > 0 && s.tileWidth > 0 && s.targetMaxDim > 0
  }

  /** One emitted tile: where it was cut and how to scale detector
      coordinates back to the tile. */
  datatype Tile = Tile(top: int, left: int, scaleX: real, scaleY: real)

  /** The step between windows: the tile size less the overlap, or the tile
      size itself when that would not move forward. */
  function Stride(tile: int, overlap: int): (s: int)
    ensures tile > 0 ==> s > 0
    ensures tile > 0 && overlap >= 0 ==> s <= tile
    ensures tile - overlap > 0 ==> s == tile - overlap
    ensures tile - overlap <= 0 ==> s == tile
  {
    if tile - overlap <= 0 then tile else tile - overlap
  }

  /** The positions a `for pos in range(start, page, stride)` loop visits
      when it also breaks right after the first window that reaches the far
      edge (`pos + tile >= page`). */
  function Sweep(pos: int, page: int, tile: int, stride: int): seq<int>
    requires stride > 0
    decreases page - pos
  {
    if pos >= page then []
    else if pos + tile >= page then [pos]
    else [pos] + Sweep(pos + stride, page, tile, stride)
  }

  /** The sweep starts at `pos`, moves by `stride`, stays below `page`,
      reaches the far edge only at its last window, and stops either there
      or because the range is exhausted. */
  predicate SweepShape(ps: seq<int>, pos: int, page: int, tile: int, stride: int)
  {
    (|ps| > 0 <==> pos < page)
    && (|ps| > 0 ==> ps[0] == pos)
    && (forall i :: 0 <= i < |ps| ==> pos <= ps[i] < page)
    && (forall i :: 0 <= i < |ps| - 1 ==> ps[i + 1] == ps[i] + stride && ps[i] + tile < page)
    && (|ps| > 0 ==> ps[|ps| - 1] + tile >= page || ps[|ps| - 1] + stride >= page)
  }

  lemma {:induction false} SweepHasShape(pos: int, page: int, tile: int, stride: int)
    requires stride > 0
    ensures SweepShape(Sweep(pos, page, tile, stride), pos, page, tile, stride)
    decreases page - pos
  {
    if pos < page && pos + tile < page {
      SweepHasShape(pos + stride, page, tile, stride);
      var rest := Sweep(pos + stride, page, tile, stride);
      var ps := Sweep(pos, page, tile, stride);
      assert ps == [pos] + rest;
      forall i | 0 <= i < |ps| - 1
        ensures ps[i + 1] == ps[i] + stride && ps[i] + tile < page
      {
        if i > 0 {
          assert ps[i] == rest[i - 1] && ps[i + 1] == rest[i];
        }
      }
    }
  }

  /** The positions of a sweep strictly increase. */
  lemma SweepIncreasing(pos: int, page: int, tile: int, stride: int)
    requires stride > 0
    ensures StrictlyIncreasing(Sweep(pos, page, tile, stride))
  {
    var ps := Sweep(pos, page, tile, stride);
    SweepHasShape(pos, page, tile, stride);
    forall i, j | 0 <= i < j < |ps|
      ensures ps[i] < ps[j]
    {
      StepsIncrease(ps, stride, i, j);
    }
  }

  lemma {:induction false} StepsIncrease(ps: seq<int>, stride: int, i: int, j: int)
    requires stride > 0 && 0 <= i < j < |ps|
    requires forall k :: 0 <= k < |ps| - 1 ==> ps[k + 1] == ps[k] + stride
    ensures ps[i] < ps[j]
    decreases j - i
  {
    if j > i + 1 {
      StepsIncrease(ps, stride, i, j - 1);
    }
  }

  /** The Pillow clamp: `max(0, min(pos, page - tile))`. */
  function ClampPillow(pos: int, page: int, tile: int): int
  {
    MaxInt(0, MinInt(pos, page - tile))
  }

  /** The OpenCV clamp: pull the window back to end at the edge when it
      would overrun, then lift it to 0. */
  function ClampOpenCv(pos: int, page: int, tile: int): int
  {
    MaxInt(0, if pos + tile > page then page - tile else pos)
  }

  /** The two clamps agree; the offset lies in [0, max(0, page - tile)],
      is `pos` itself when the window fits, keeps a window that fits the
      page inside the page, and still reaches the far edge when `pos` did. */
  lemma ClampBounds(pos: int, page: int, tile: int)
    ensures ClampOpenCv(pos, page, tile) == ClampPillow(pos, page, tile)
    ensures 0 <= ClampPillow(pos, page, tile) <= MaxInt(0, page - tile)
    ensures 0 <= pos && pos + tile <= page ==> ClampPillow(pos, page, tile) == pos
    ensures tile <= page ==> ClampPillow(pos, page, tile) + tile <= page
    ensures pos >= 0 ==> ClampPillow(pos, page, tile) <= pos
    ensures pos + tile >= page ==> ClampPillow(pos, page, tile) + tile >= page
  {
  }

  function Clamp(b: Backend, pos: int, page: int, tile: int): int
  {
    match b
    case OpenCv => ClampOpenCv(pos, page, tile)
    case Pillow => ClampPillow(pos, page, tile)
  }

  /** The factors that take a coordinate on the `target`-square resized
      tile back to the `w` x `h` crop: 1 when no resize happens. */
  function Scales(w: int, h: int, target: int): (r: (real, real))
    requires target > 0
    ensures r.0 * target as real == w as real && r.1 * target as real == h as real
    ensures r == (1.0, 1.0) <==> w == target && h == target
  {
    if h != target || w != target then (w as real / target as real, h as real / target as real)
    else (1.0, 1.0)
  }

  /** The size of the crop cut at a clamped offset: NumPy slicing stops at
      the page edge, Pillow pads to the full tile. */
  function CropSize(b: Backend, offset: int, page: int, tile: int): int
  {
    match b
    case OpenCv => MinInt(tile, page - offset)
    case Pillow => tile
  }

  function MakeTile(b: Backend, s: Setup, top: int, left: int): (t: Tile)
    requires ValidSetup(s)
  {
    var et := Clamp(b, top, s.height, s.tileHeight);
    var el := Clamp(b, left, s.width, s.tileWidth);
    var sc := Scales(CropSize(b, el, s.width, s.tileWidth), CropSize(b, et, s.height, s.tileHeight), s.targetMaxDim);
    Tile(et, el, sc.0, sc.1)
  }

  /** One row of tiles: the top offset fixed, one tile per left position. */
  function Row(b: Backend, s: Setup, top: int, lefts: seq<int>): (row: seq<Tile>)
    requires ValidSetup(s)
    ensures |row| == |lefts|
  {
    seq(|lefts|, c requires 0 <= c < |lefts| => MakeTile(b, s, top, lefts[c]))
  }

  /** The rows for the given tops, one after another. */
  function Grid(b: Backend, s: Setup, tops: seq<int>, lefts: seq<int>): seq<Tile>
    requires ValidSetup(s)
  {
    if |tops| == 0 then []
    else
      var n := |tops| - 1;
      Grid(b, s, tops[..n], lefts) + Row(b, s, tops[n], lefts)
  }

  function Tops(s: Setup): seq<int>
    requires ValidSetup(s)
  {
    Sweep(0, s.height, s.tileHeight, Stride(s.tileHeight, s.overlap))
  }

  function Lefts(s: Setup): seq<int>
    requires ValidSetup(s)
  {
    Sweep(0, s.width, s.tileWidth, Stride(s.tileWidth, s.overlap))
  }

  /** The tiles `slice_image_in_tiles` returns, as a reference definition. */
  function Tiles(b: Backend, s: Setup): seq<Tile>
    requires ValidSetup(s)
  {
    Grid(b, s, Tops(s), Lefts(s))
  }

  /** The two nested loops with their breaks, producing exactly `Tiles`. */
  method SliceImageInTiles(b: Backend, s: Setup) returns (tiles: seq<Tile>)
    requires ValidSetup(s)
    ensures tiles == Tiles(b, s)
  {
    var strideY := Stride(s.tileHeight, s.overlap);
    var strideX := Stride(s.tileWidth, s.overlap);
    ghost var tops, lefts := Tops(s), Lefts(s);
    tiles := [];
    ghost var doneTops: seq<int> := [];
    var top := 0;
    while top < s.height
      invariant doneTops + Sweep(top, s.height, s.tileHeight, strideY) == tops
      invariant tiles == Grid(b, s, doneTops, lefts)
      decreases s.height - top
    {
      var row := TileRow(b, s, top);
      GridSnoc(b, s, doneTops, top, lefts);
      tiles := tiles + row;
      if top + s.tileHeight >= s.height {
        SweepLast(doneTops, top, s.height, s.tileHeight, strideY, tops);
        doneTops := doneTops + [top];
        break;
      }
      SweepAdvance(doneTops, top, s.height, s.tileHeight, strideY, tops);
      doneTops := doneTops + [top];
      top := top + strideY;
    }
    SweepDone(doneTops, top, s.height, s.tileHeight, strideY, tops);
  }

  /** The inner loop: one row of tiles at `top`. */
  method TileRow(b: Backend, s: Setup, top: int) returns (row: seq<Tile>)
    requires ValidSetup(s)
    ensures row == Row(b, s, top, Lefts(s))
  {
    var strideX := Stride(s.tileWidth, s.overlap);
    ghost var lefts := Lefts(s);
    row := [];
    ghost var doneLefts: seq<int> := [];
    var left := 0;
    while left < s.width
      invariant doneLefts + Sweep(left, s.width, s.tileWidth, strideX) == lefts
      invariant row == Row(b, s, top, doneLefts)
      decreases s.width - left
    {
      RowSnoc(b, s, top, doneLefts, left);
      row := row + [MakeTile(b, s, top, left)];
      if left + s.tileWidth >= s.width {
        SweepLast(doneLefts, left, s.width, s.tileWidth, strideX, lefts);
        doneLefts := doneLefts + [left];
        break;
      }
      SweepAdvance(doneLefts, left, s.width, s.tileWidth, strideX, lefts);
      doneLefts := doneLefts + [left];
      left := left + strideX;
    }
    SweepDone(doneLefts, left, s.width, s.tileWidth, strideX, lefts);
  }

  lemma SweepAdvance(done: seq<int>, pos: int, page: int, tile: int, stride: int, all: seq<int>)
    requires stride > 0 && done + Sweep(pos, page, tile, stride) == all
    requires pos < page && pos + tile < page
    ensures (done + [pos]) + Sweep(pos + stride, page, tile, stride) == all
  {
    assert Sweep(pos, page, tile, stride) == [pos] + Sweep(pos + stride, page, tile, stride);
  }

  lemma SweepLast(done: seq<int>, pos: int, page: int, tile: int, stride: int, all: seq<int>)
    requires stride > 0 && done + Sweep(pos, page, tile, stride) == all
    requires pos < page && pos + tile >= page
    ensures done + [pos] == all
  {
  }

  lemma SweepDone(done: seq<int>, pos: int, page: int, tile: int, stride: int, all: seq<int>)
    requires stride > 0
    requires pos >= page ==> done + Sweep(pos, page, tile, stride) == all
    requires pos < page ==> done == all
    ensures done == all
  {
    if pos >= page {
      assert done + [] == done;
    }
  }

  lemma RowSnoc(b: Backend, s: Setup, top: int, lefts: seq<int>, left: int)
    requires ValidSetup(s)
    ensures Row(b, s, top, lefts + [left]) == Row(b, s, top, lefts) + [MakeTile(b, s, top, left)]
  {
  }

  lemma GridSnoc(b: Backend, s: Setup, tops: seq<int>, top: int, lefts: seq<int>)
    requires ValidSetup(s)
    ensures Grid(b, s, tops + [top], lefts) == Grid(b, s, tops, lefts) + Row(b, s, top, lefts)
  {
    assert (tops + [top])[..|tops|] == tops;
  }

  lemma {:induction false} GridLength(b: Backend, s: Setup, tops: seq<int>, lefts: seq<int>)
    requires ValidSetup(s)
    ensures |Grid(b, s, tops, lefts)| == |tops| * |lefts|
  {
    if |tops| > 0 {
      var n := |tops| - 1;
      GridLength(b, s, tops[..n], lefts);
      assert |tops| * |lefts| == n * |lefts| + |lefts|;
    }
  }

  /** Tiles come out row by row: tile `r * |lefts| + c` is cut at the
      `r`-th top and the `c`-th left position. */
  lemma {:induction false} GridRowMajor(b: Backend, s: Setup, tops: seq<int>, lefts: seq<int>, r: int, c: int)
    requires ValidSetup(s) && 0 <= r < |tops| && 0 <= c < |lefts|
    ensures 0 <= r * |lefts| + c < |Grid(b, s, tops, lefts)|
    ensures Grid(b, s, tops, lefts)[r * |lefts| + c] == MakeTile(b, s, tops[r], lefts[c])
  {
    var n := |tops| - 1;
    var l := |lefts|;
    RowIndexBound(r, c, |tops|, l);
    GridLength(b, s, tops, lefts);
    GridLength(b, s, tops[..n], lefts);
    if r < n {
      RowIndexBound(r, c, n, l);
      GridRowMajor(b, s, tops[..n], lefts, r, c);
    } else {
      assert r * l + c == n * l + c;
    }
  }

  lemma RowIndexBound(r: int, c: int, rows: int, cols: int)
    requires 0 <= r < rows && 0 <= c < cols
    ensures 0 <= r * cols + c < rows * cols
  {
    assert r * cols <= (rows - 1) * cols by {
      assert (rows - 1 - r) * cols >= 0;
    }
  }

  /** Position `y` lies in the clamped window of some position of `ps`. */
  predicate CoveredAt(b: Backend, ps: seq<int>, page: int, tile: int, y: int)
  {
    exists i :: 0 <= i < |ps| && Clamp(b, ps[i], page, tile) <= y < Clamp(b, ps[i], page, tile) + tile
  }

  lemma {:induction false} SweepCovers(b: Backend, pos: int, page: int, tile: int, stride: int, y: int)
    requires 0 < stride <= tile && 0 <= pos <= y < page
    ensures CoveredAt(b, Sweep(pos, page, tile, stride), page, tile, y)
    decreases page - pos
  {
    var ps := Sweep(pos, page, tile, stride);
    ClampBounds(pos, page, tile);
    if pos + tile >= page || y < pos + tile {
      assert ps[0] == pos;
    } else {
      SweepCovers(b, pos + stride, page, tile, stride, y);
      var rest := Sweep(pos + stride, page, tile, stride);
      var i :| 0 <= i < |rest| && Clamp(b, rest[i], page, tile) <= y < Clamp(b, rest[i], page, tile) + tile;
      assert ps[i + 1] == rest[i];
    }
  }

  /** With a non-negative overlap the windows cover the whole page: every
      pixel lies in some tile. A tile larger than the page is cut once, at
      offset 0, and covers that axis on its own. */
  lemma TilesCoverPage(b: Backend, s: Setup, x: int, y: int)
    requires ValidSetup(s) && s.overlap >= 0
    requires 0 <= x < s.width && 0 <= y < s.height
    ensures exists k :: 0 <= k < |Tiles(b, s)|
              && Tiles(b, s)[k].top <= y < Tiles(b, s)[k].top + s.tileHeight
              && Tiles(b, s)[k].left <= x < Tiles(b, s)[k].left + s.tileWidth
  {
    var tops, lefts := Tops(s), Lefts(s);
    SweepCovers(b, 0, s.height, s.tileHeight, Stride(s.tileHeight, s.overlap), y);
    SweepCovers(b, 0, s.width, s.tileWidth, Stride(s.tileWidth, s.overlap), x);
    var r :| 0 <= r < |tops| && Clamp(b, tops[r], s.height, s.tileHeight) <= y < Clamp(b, tops[r], s.height, s.tileHeight) + s.tileHeight;
    var c :| 0 <= c < |lefts| && Clamp(b, lefts[c], s.width, s.tileWidth) <= x < Clamp(b, lefts[c], s.width, s.tileWidth) + s.tileWidth;
    GridRowMajor(b, s, tops, lefts, r, c);
    var k := r * |lefts| + c;
    assert Tiles(b, s)[k] == MakeTile(b, s, tops[r], lefts[c]);
  }

  /** Every tile lies at a non-negative offset, and inside the page when
      the tile fits the page. */
  lemma TilesInsidePage(b: Backend, s: Setup, k: int)
    requires ValidSetup(s) && 0 <= k < |Tiles(b, s)|
    ensures 0 <= Tiles(b, s)[k].top && 0 <= Tiles(b, s)[k].left
    ensures s.tileHeight <= s.height ==> Tiles(b, s)[k].top + s.tileHeight <= s.height
    ensures s.tileWidth <= s.width ==> Tiles(b, s)[k].left + s.tileWidth <= s.width
  {
    var r, c := GridTileAt(b, s, Tops(s), Lefts(s), k);
    ClampBounds(Tops(s)[r], s.height, s.tileHeight);
    ClampBounds(Lefts(s)[c], s.width, s.tileWidth);
  }

  /** Tile `k` of a grid is cut at one of the tops and one of the lefts. */
  lemma {:induction false} GridTileAt(b: Backend, s: Setup, tops: seq<int>, lefts: seq<int>, k: int) returns (r: int, c: int)
    requires ValidSetup(s) && 0 <= k < |Grid(b, s, tops, lefts)|
    ensures 0 <= r < |tops| && 0 <= c < |lefts|
    ensures Grid(b, s, tops, lefts)[k] == MakeTile(b, s, tops[r], lefts[c])
  {
    var n := |tops| - 1;
    var before := Grid(b, s, tops[..n], lefts);
    if k < |before| {
      r, c := GridTileAt(b, s, tops[..n], lefts, k);
    } else {
      r, c := n, k - |before|;
    }
  }

  /** When the tile fits the page, both backends cut the same tiles with
      the same scale factors. */
  lemma BackendsAgree(s: Setup)
    requires ValidSetup(s) && s.tileHeight <= s.height && s.tileWidth <= s.width
    ensures Tiles(Pillow, s) == Tiles(OpenCv, s)
  {
    GridsAgree(s, Tops(s), Lefts(s));
  }

  lemma {:induction false} GridsAgree(s: Setup, tops: seq<int>, lefts: seq<int>)
    requires ValidSetup(s) && s.tileHeight <= s.height && s.tileWidth <= s.width
    ensures Grid(Pillow, s, tops, lefts) == Grid(OpenCv, s, tops, lefts)
  {
    if |tops| > 0 {
      var n := |tops| - 1;
      GridsAgree(s, tops[..n], lefts);
      forall c | 0 <= c < |lefts|
        ensures MakeTile(Pillow, s, tops[n], lefts[c]) == MakeTile(OpenCv, s, tops[n], lefts[c])
      {
        ClampBounds(tops[n], s.height, s.tileHeight);
        ClampBounds(lefts[c], s.width, s.tileWidth);
      }
      assert Row(Pillow, s, tops[n], lefts) == Row(OpenCv, s, tops[n], lefts);
    }
  }
}

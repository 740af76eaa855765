/** `split_image_safely`, in its four versions: cut a tall page into chunks
    no taller than `max_height`, preferring cut lines that avoid the text
    boxes. Only the split-point arithmetic and the chunk offsets are
    modelled; the crops themselves are pixel work. */
module Segmenter {
  import opened Common
  import opened Boxes

  /** An open vertical interval `(lo, hi)` a cut line must avoid. Its
      bounds come from box corners, which may be fractional (OCR corners
      shifted by a slice offset), so they are reals; cut lines are whole
      rows. */
  datatype Zone = Zone(lo: real, hi: real)

  /** The margin the current versions add above and below every box. */
  const Margin: real := 20.0

  /** The default `max_height` of `app/core/image_utils.py`. */
  const DefaultMaxHeight: int := 10000

  /** The default `max_height` of the archived version. */
  const ArchivedMaxHeight: int := 30000

  /** A cut at `y` is safe when `y` is strictly inside no zone: a cut on a
      zone's edge is allowed. */
  predicate IsSafe(y: int, zones: seq<Zone>)
  {
    forall k :: 0 <= k < |zones| ==> !(zones[k].lo < y as real < zones[k].hi)
  }

  // ---------------------------------------------------------------------
  // Forbidden zones of each version

  /** OpenCV version: the box's top less the margin and bottom plus the
      margin, clamped to [0, height]. */
  function ZonesClamped(boxes: seq<Quad>, height: int): (zs: seq<Zone>)
    ensures |zs| == |boxes|
  {
    seq(|boxes|, k requires 0 <= k < |boxes| =>
      Zone(MaxReal(0.0, boxes[k].tl.y - Margin), MinReal(height as real, boxes[k].br.y + Margin)))
  }

  /** Pillow version and `app/core/image_utils.py`: the same margins,
      unclamped. */
  function ZonesWithMargin(boxes: seq<Quad>): (zs: seq<Zone>)
    ensures |zs| == |boxes|
  {
    seq(|boxes|, k requires 0 <= k < |boxes| => Zone(boxes[k].tl.y - Margin, boxes[k].br.y + Margin))
  }

  /** Archived version: the box's own vertical extent, no margin. */
  function ZonesFlat(boxes: seq<FlatBox>): (zs: seq<Zone>)
    ensures |zs| == |boxes|
  {
    seq(|boxes|, k requires 0 <= k < |boxes| => Zone(boxes[k].yMin as real, boxes[k].yMax as real))
  }

  /** Between 0 and the page height, clamping the zones changes no
      verdict: a cut line strictly inside the page is safe against the
      clamped zones iff it is safe against the unclamped ones. */
  lemma ClampedZonesAgree(boxes: seq<Quad>, height: int, y: int)
    requires 0 < y < height
    ensures IsSafe(y, ZonesClamped(boxes, height)) <==> IsSafe(y, ZonesWithMargin(boxes))
  {
    var c, u := ZonesClamped(boxes, height), ZonesWithMargin(boxes);
    assert forall k :: 0 <= k < |boxes| ==> (c[k].lo < y as real < c[k].hi <==> u[k].lo < y as real < u[k].hi);
  }

  // ---------------------------------------------------------------------
  // The backward scan

  /** The first safe line met when scanning down from `y` to just above
      `cur`, as `for y in range(top, cur, -1)` does. */
  function LargestSafe(y: int, cur: int, zones: seq<Zone>): Option<int>
    decreases y - cur
  {
    if y <= cur then None
    else if IsSafe(y, zones) then Some(y)
    else LargestSafe(y - 1, cur, zones)
  }

  /** The scan finds the largest safe line in (cur, y], and finds nothing
      exactly when no line there is safe. */
  lemma {:induction false} LargestSafeSpec(y: int, cur: int, zones: seq<Zone>)
    ensures LargestSafe(y, cur, zones).Some? ==>
              var s := LargestSafe(y, cur, zones).value;
              cur < s <= y && IsSafe(s, zones) && forall z :: s < z <= y ==> !IsSafe(z, zones)
    ensures LargestSafe(y, cur, zones).None? ==> forall z :: cur < z <= y ==> !IsSafe(z, zones)
    decreases y - cur
  {
    if y > cur && !IsSafe(y, zones) {
      LargestSafeSpec(y - 1, cur, zones);
    }
  }

  /** The split chosen below `top`: the largest safe line in (cur, top],
      or `top` itself when there is none. */
  function PickSplit(top: int, cur: int, zones: seq<Zone>): int
  {
    match LargestSafe(top, cur, zones)
    case Some(y) => y
    case None => top
  }

  /** The greedy rule, stated without the scan: the pick lies in (cur, top]
      when that range is non-empty; it is the largest safe line there when
      one exists, and `top` when none does. */
  lemma PickSplitSpec(top: int, cur: int, zones: seq<Zone>)
    ensures cur < top ==> cur < PickSplit(top, cur, zones) <= top
    ensures (exists z :: cur < z <= top && IsSafe(z, zones)) ==>
              IsSafe(PickSplit(top, cur, zones), zones)
              && forall z :: PickSplit(top, cur, zones) < z <= top ==> !IsSafe(z, zones)
    ensures (forall z :: cur < z <= top ==> !IsSafe(z, zones)) ==> PickSplit(top, cur, zones) == top
  {
    LargestSafeSpec(top, cur, zones);
  }

  /** The inner safety loop over the boxes, with its early break. */
  method CheckSafe(y: int, zones: seq<Zone>) returns (safe: bool)
    ensures safe == IsSafe(y, zones)
  {
    safe := true;
    var k := 0;
    while k < |zones|
      invariant 0 <= k <= |zones|
      invariant safe == forall j :: 0 <= j < k ==> !(zones[j].lo < y as real < zones[j].hi)
    {
      if zones[k].lo < y as real < zones[k].hi {
        safe := false;
        break;
      }
      k := k + 1;
    }
  }

  /** The backward scan with its fallback to `top`. */
  method ScanDown(top: int, cur: int, zones: seq<Zone>) returns (best: int)
    ensures best == PickSplit(top, cur, zones)
  {
    best := top;
    var y := top;
    while y > cur
      invariant LargestSafe(y, cur, zones) == LargestSafe(top, cur, zones)
      decreases y - cur
    {
      var safe := CheckSafe(y, zones);
      if safe {
        best := y;
        break;
      }
      y := y - 1;
    }
  }

  // ---------------------------------------------------------------------
  // The outer loop

  /** Pillow, `app/core/image_utils.py` and archived versions: the next
      split after `cur`, scanning down from `min(cur + max_height, height)`
      even when that is the page bottom. */
  function NextSplit(cur: int, height: int, maxHeight: int, zones: seq<Zone>): int
  {
    PickSplit(MinInt(cur + maxHeight, height), cur, zones)
  }

  /** OpenCV version: the same, except that a window reaching the page
      bottom ends there without a scan. */
  function NextSplitCv2(cur: int, height: int, maxHeight: int, zones: seq<Zone>): int
  {
    var target := MinInt(cur + maxHeight, height);
    if target == height then height else PickSplit(target, cur, zones)
  }

  /** Split points that start at 0, strictly increase and are at most
      `maxHeight` apart. */
  predicate Steps(points: seq<int>, maxHeight: int)
  {
    |points| >= 1 && points[0] == 0 && StrictlyIncreasing(points)
    && forall i :: 0 <= i < |points| - 1 ==> points[i + 1] - points[i] <= maxHeight
  }

  /** A run of split points that starts at 0, strictly increases, ends at
      the page height (or is just `[0]` on an empty page) and leaves chunks
      no taller than `maxHeight`. */
  predicate SplitShape(points: seq<int>, height: int, maxHeight: int)
  {
    Steps(points, maxHeight)
    && (height > 0 ==> points[|points| - 1] == height)
    && (height <= 0 ==> points == [0])
  }

  /** Each point after the first is the split the scanning versions choose
      after the previous one. */
  predicate FollowsScan(points: seq<int>, height: int, maxHeight: int, zones: seq<Zone>)
  {
    forall i :: 0 <= i < |points| - 1 ==> points[i + 1] == NextSplit(points[i], height, maxHeight, zones)
  }

  /** Each point after the first is the split the OpenCV version chooses
      after the previous one. */
  predicate FollowsCv2(points: seq<int>, height: int, maxHeight: int, zones: seq<Zone>)
  {
    forall i :: 0 <= i < |points| - 1 ==> points[i + 1] == NextSplitCv2(points[i], height, maxHeight, zones)
  }

  lemma StepsSnoc(points: seq<int>, next: int, maxHeight: int)
    requires Steps(points, maxHeight)
    requires points[|points| - 1] < next <= points[|points| - 1] + maxHeight
    ensures Steps(points + [next], maxHeight)
  {
    IncreasingSnoc(points, next);
    var p := points + [next];
    forall i | 0 <= i < |p| - 1
      ensures p[i + 1] - p[i] <= maxHeight
    {
      if i < |points| - 1 {
        assert p[i] == points[i] && p[i + 1] == points[i + 1];
      }
    }
  }

  lemma FollowsScanSnoc(points: seq<int>, height: int, maxHeight: int, zones: seq<Zone>)
    requires |points| >= 1 && FollowsScan(points, height, maxHeight, zones)
    ensures FollowsScan(points + [NextSplit(points[|points| - 1], height, maxHeight, zones)], height, maxHeight, zones)
  {
    var p := points + [NextSplit(points[|points| - 1], height, maxHeight, zones)];
    forall i | 0 <= i < |p| - 1
      ensures p[i + 1] == NextSplit(p[i], height, maxHeight, zones)
    {
      if i < |points| - 1 {
        assert p[i] == points[i] && p[i + 1] == points[i + 1];
      }
    }
  }

  lemma FollowsCv2Snoc(points: seq<int>, height: int, maxHeight: int, zones: seq<Zone>)
    requires |points| >= 1 && FollowsCv2(points, height, maxHeight, zones)
    ensures FollowsCv2(points + [NextSplitCv2(points[|points| - 1], height, maxHeight, zones)], height, maxHeight, zones)
  {
    var p := points + [NextSplitCv2(points[|points| - 1], height, maxHeight, zones)];
    forall i | 0 <= i < |p| - 1
      ensures p[i + 1] == NextSplitCv2(p[i], height, maxHeight, zones)
    {
      if i < |points| - 1 {
        assert p[i] == points[i] && p[i + 1] == points[i + 1];
      }
    }
  }

  /** The loop of the Pillow, `app/core/image_utils.py` and archived
      versions. A non-positive `max_height` would make it loop forever. */
  method SplitPoints(height: int, maxHeight: int, zones: seq<Zone>) returns (points: seq<int>)
    requires maxHeight > 0
    ensures SplitShape(points, height, maxHeight)
    ensures FollowsScan(points, height, maxHeight, zones)
  {
    points := [0];
    var cur := 0;
    while cur < height
      invariant Steps(points, maxHeight) && points[|points| - 1] == cur
      invariant cur <= height || points == [0]
      invariant FollowsScan(points, height, maxHeight, zones)
      decreases height - cur
    {
      var top := MinInt(cur + maxHeight, height);
      var best := ScanDown(top, cur, zones);
      PickSplitSpec(top, cur, zones);
      StepsSnoc(points, best, maxHeight);
      FollowsScanSnoc(points, height, maxHeight, zones);
      points := points + [best];
      cur := best;
      if cur >= height {
        break;
      }
    }
  }

  /** The loop of the OpenCV version, with its early stop. */
  method SplitPointsCv2(height: int, maxHeight: int, zones: seq<Zone>) returns (points: seq<int>)
    requires maxHeight > 0
    ensures SplitShape(points, height, maxHeight)
    ensures FollowsCv2(points, height, maxHeight, zones)
  {
    points := [0];
    var cur := 0;
    while cur < height
      invariant Steps(points, maxHeight) && points[|points| - 1] == cur
      invariant cur <= height || points == [0]
      invariant FollowsCv2(points, height, maxHeight, zones)
      decreases height - cur
    {
      var target := MinInt(cur + maxHeight, height);
      if target == height {
        StepsSnoc(points, height, maxHeight);
        FollowsCv2Snoc(points, height, maxHeight, zones);
        points := points + [height];
        break;
      }
      var best := ScanDown(target, cur, zones);
      PickSplitSpec(target, cur, zones);
      StepsSnoc(points, best, maxHeight);
      FollowsCv2Snoc(points, height, maxHeight, zones);
      points := points + [best];
      cur := best;
    }
  }

  /** Away from the page bottom the two loops take the same step: the
      OpenCV early stop and zone clamp only matter at the last chunk. */
  lemma NextSplitsAgree(boxes: seq<Quad>, cur: int, height: int, maxHeight: int)
    requires 0 <= cur && maxHeight > 0 && cur + maxHeight < height
    ensures NextSplitCv2(cur, height, maxHeight, ZonesClamped(boxes, height))
            == NextSplit(cur, height, maxHeight, ZonesWithMargin(boxes))
  {
    var top := cur + maxHeight;
    var c, u := ZonesClamped(boxes, height), ZonesWithMargin(boxes);
    forall y | cur < y <= top
      ensures IsSafe(y, c) <==> IsSafe(y, u)
    {
      ClampedZonesAgree(boxes, height, y);
    }
    ScanAgrees(top, cur, c, u);
  }

  lemma {:induction false} ScanAgrees(y: int, cur: int, a: seq<Zone>, b: seq<Zone>)
    requires forall z :: cur < z <= y ==> (IsSafe(z, a) <==> IsSafe(z, b))
    ensures LargestSafe(y, cur, a) == LargestSafe(y, cur, b)
    decreases y - cur
  {
    if y > cur {
      ScanAgrees(y - 1, cur, a, b);
    }
  }

  // ---------------------------------------------------------------------
  // Chunks

  datatype Chunk = Chunk(start: int, end: int, topOffset: int)

  /** The `for i in range(len(split_points) - 1)` loop: one chunk per pair
      of consecutive points that grows, with its top offset taken from its
      start or fixed at 0. */
  function CutChunks(points: seq<int>, offsetAtStart: bool): seq<Chunk>
  {
    if |points| < 2 then []
    else
      var n := |points| - 1;
      var rest := CutChunks(points[..n], offsetAtStart);
      if points[n] > points[n - 1]
      then rest + [Chunk(points[n - 1], points[n], if offsetAtStart then points[n - 1] else 0)]
      else rest
  }

  /** On increasing split points no pair is skipped: chunk `i` runs from
      point `i` to point `i + 1`, with the chosen top offset. */
  lemma {:induction false} CutChunksSpec(points: seq<int>, offsetAtStart: bool)
    requires StrictlyIncreasing(points) && |points| >= 1
    ensures |CutChunks(points, offsetAtStart)| == |points| - 1
    ensures forall i :: 0 <= i < |points| - 1 ==>
              CutChunks(points, offsetAtStart)[i]
              == Chunk(points[i], points[i + 1], if offsetAtStart then points[i] else 0)
  {
    var n := |points| - 1;
    if n >= 1 {
      var init := points[..n];
      CutChunksSpec(init, offsetAtStart);
      var rest := CutChunks(init, offsetAtStart);
      assert points[n] > points[n - 1];
      forall i | 0 <= i < n
        ensures CutChunks(points, offsetAtStart)[i]
                == Chunk(points[i], points[i + 1], if offsetAtStart then points[i] else 0)
      {
        if i < n - 1 {
          assert rest[i] == Chunk(init[i], init[i + 1], if offsetAtStart then init[i] else 0);
        }
      }
    }
  }

  /** Chunks cut along split points of the right shape lie end to end
      from 0 to the page height, each no taller than `maxHeight`. */
  predicate ChunksTilePage(chunks: seq<Chunk>, height: int, maxHeight: int)
  {
    (height <= 0 ==> chunks == [])
    && (height > 0 ==> |chunks| > 0 && chunks[0].start == 0 && chunks[|chunks| - 1].end == height)
    && (forall i :: 0 <= i < |chunks| ==> chunks[i].start < chunks[i].end <= chunks[i].start + maxHeight)
    && (forall i :: 0 <= i < |chunks| - 1 ==> chunks[i].end == chunks[i + 1].start)
  }

  lemma ChunksOfShape(points: seq<int>, height: int, maxHeight: int, offsetAtStart: bool)
    requires SplitShape(points, height, maxHeight)
    ensures ChunksTilePage(CutChunks(points, offsetAtStart), height, maxHeight)
  {
    CutChunksSpec(points, offsetAtStart);
    var cs := CutChunks(points, offsetAtStart);
    forall i | 0 <= i < |cs|
      ensures cs[i].start == points[i] && cs[i].end == points[i + 1]
      ensures cs[i].start < cs[i].end <= cs[i].start + maxHeight
    {
      assert cs[i] == Chunk(points[i], points[i + 1], if offsetAtStart then points[i] else 0);
    }
  }

  // ---------------------------------------------------------------------
  // The four versions

  /** OpenCV version: clamped margin zones, early stop, offsets at the
      chunk starts. */
  method SplitImageSafelyCv2(height: int, boxes: seq<Quad>, maxHeight: int) returns (chunks: seq<Chunk>)
    requires maxHeight > 0
    ensures ChunksTilePage(chunks, height, maxHeight)
    ensures forall i :: 0 <= i < |chunks| ==> chunks[i].topOffset == chunks[i].start
    ensures forall i :: 0 <= i < |chunks| && chunks[i].end < height ==>
              chunks[i].end == PickSplit(chunks[i].start + maxHeight, chunks[i].start, ZonesClamped(boxes, height))
  {
    var points := SplitPointsCv2(height, maxHeight, ZonesClamped(boxes, height));
    chunks := CutChunks(points, true);
    ChunksOfShape(points, height, maxHeight, true);
    CutChunksSpec(points, true);
    forall i | 0 <= i < |chunks|
      ensures chunks[i].topOffset == chunks[i].start
      ensures chunks[i].end < height ==>
                chunks[i].end == PickSplit(chunks[i].start + maxHeight, chunks[i].start, ZonesClamped(boxes, height))
    {
      assert chunks[i] == Chunk(points[i], points[i + 1], points[i]);
    }
  }

  /** Pillow version: unclamped margin zones, offsets at the chunk starts. */
  method SplitImageSafelyPil(height: int, boxes: seq<Quad>, maxHeight: int) returns (chunks: seq<Chunk>)
    requires maxHeight > 0
    ensures ChunksTilePage(chunks, height, maxHeight)
    ensures forall i :: 0 <= i < |chunks| ==> chunks[i].topOffset == chunks[i].start
    ensures forall i :: 0 <= i < |chunks| ==>
              chunks[i].end == NextSplit(chunks[i].start, height, maxHeight, ZonesWithMargin(boxes))
  {
    var points := SplitPoints(height, maxHeight, ZonesWithMargin(boxes));
    chunks := CutChunks(points, true);
    ChunksOfShape(points, height, maxHeight, true);
    CutChunksSpec(points, true);
    forall i | 0 <= i < |chunks|
      ensures chunks[i].topOffset == chunks[i].start
      ensures chunks[i].end == NextSplit(chunks[i].start, height, maxHeight, ZonesWithMargin(boxes))
    {
      assert chunks[i] == Chunk(points[i], points[i + 1], points[i]);
    }
  }

  /** `app/core/image_utils.py`: the Pillow loop, but every chunk's top
      offset is 0 rather than its start. */
  method SplitImageSafelyPlain(height: int, boxes: seq<Quad>, maxHeight: int) returns (chunks: seq<Chunk>)
    requires maxHeight > 0
    ensures ChunksTilePage(chunks, height, maxHeight)
    ensures forall i :: 0 <= i < |chunks| ==> chunks[i].topOffset == 0
    ensures forall i :: 0 <= i < |chunks| ==>
              chunks[i].end == NextSplit(chunks[i].start, height, maxHeight, ZonesWithMargin(boxes))
  {
    var points := SplitPoints(height, maxHeight, ZonesWithMargin(boxes));
    chunks := CutChunks(points, false);
    ChunksOfShape(points, height, maxHeight, false);
    CutChunksSpec(points, false);
    forall i | 0 <= i < |chunks|
      ensures chunks[i].topOffset == 0
      ensures chunks[i].end == NextSplit(chunks[i].start, height, maxHeight, ZonesWithMargin(boxes))
    {
      assert chunks[i] == Chunk(points[i], points[i + 1], 0);
    }
  }

  /** Archived version: flat boxes, no margin; it returns the crops alone,
      so only the spans are kept and one is cut per pair of points. */
  method SplitImageSafelyArchived(height: int, boxes: seq<FlatBox>, maxHeight: int) returns (spans: seq<(int, int)>)
    requires maxHeight > 0
    ensures height > 0 ==> |spans| > 0 && spans[0].0 == 0 && spans[|spans| - 1].1 == height
    ensures height <= 0 ==> spans == []
    ensures forall i :: 0 <= i < |spans| ==> spans[i].0 < spans[i].1 <= spans[i].0 + maxHeight
    ensures forall i :: 0 <= i < |spans| - 1 ==> spans[i].1 == spans[i + 1].0
    ensures forall i :: 0 <= i < |spans| ==>
              spans[i].1 == NextSplit(spans[i].0, height, maxHeight, ZonesFlat(boxes))
  {
    var points := SplitPoints(height, maxHeight, ZonesFlat(boxes));
    var chunks := CutChunks(points, false);
    ChunksOfShape(points, height, maxHeight, false);
    CutChunksSpec(points, false);
    spans := seq(|chunks|, i requires 0 <= i < |chunks| => (chunks[i].start, chunks[i].end));
    forall i | 0 <= i < |spans|
      ensures spans[i].1 == NextSplit(spans[i].0, height, maxHeight, ZonesFlat(boxes))
    {
      assert chunks[i] == Chunk(points[i], points[i + 1], 0);
    }
  }

  // ---------------------------------------------------------------------
  // A worked case

  /** A box spanning y = 380..420 gives the zone (360, 440); with
      `max_height` 400 on a taller page the scan starts at 400 and the cut
      lands on the zone's upper edge, y = 360, which the strict test counts
      as safe. */
  lemma SplitLandsOnZoneEdge(boxes: seq<Quad>, height: int)
    requires |boxes| == 1 && boxes[0].tl.y == 380.0 && boxes[0].br.y == 420.0 && height > 400
    ensures NextSplit(0, height, 400, ZonesWithMargin(boxes)) == 360
  {
    var zones := ZonesWithMargin(boxes);
    assert zones[0] == Zone(360.0, 440.0);
    assert 0 < 360 <= 400 && IsSafe(360, zones);
    forall z: int | 360 < z <= 400
      ensures !IsSafe(z, zones)
    {
      assert zones[0].lo < z as real < zones[0].hi;
    }
    PickSplitSpec(400, 0, zones);
  }

  /** Fractional corners are compared as they are: a box whose top is at
      y = 379.5 gives the zone (359.5, 440), so row 360 is inside it and the
      cut moves up to 359, where a box rounded to 380 would allow 360. */
  lemma SplitBelowFractionalBox(boxes: seq<Quad>, height: int)
    requires |boxes| == 1 && boxes[0].tl.y == 379.5 && boxes[0].br.y == 420.0 && height > 400
    ensures NextSplit(0, height, 400, ZonesWithMargin(boxes)) == 359
  {
    var zones := ZonesWithMargin(boxes);
    assert zones[0] == Zone(359.5, 440.0);
    assert 0 < 359 <= 400 && IsSafe(359, zones);
    forall z: int | 359 < z <= 400
      ensures !IsSafe(z, zones)
    {
      assert zones[0].lo < z as real < zones[0].hi;
    }
    PickSplitSpec(400, 0, zones);
  }
}

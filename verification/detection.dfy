/** Text-area detection post-processing: filtering the detector's rows,
    remapping tile/model coordinates to page space, and the first-seen
    canonical IoU merge of duplicate detections. The detector itself is an
    input: its rows arrive as `RawDetection` values. */
module Detection {
  import opened Common
  import opened Boxes
  import opened Iou

  /** One detector row after `zip(labels, boxes, scores)`; the box is
      `(xmin, ymin, xmax, ymax)` in model/tile space. */
  datatype RawDetection = RawDetection(classId: int, xmin: real, ymin: real, xmax: real, ymax: real, score: real)

  /** Where a tile sits in the page and how its pixels were resized. */
  datatype TileTransform = TileTransform(topOffset: int, leftOffset: int, scaleX: real, scaleY: real)

  /** The non-tiled path: no offset, unit scale. */
  const WholeImage: TileTransform := TileTransform(0, 0, 1.0, 1.0)

  /** A detected text area, with the keys the detection step fills in. */
  datatype Region = Region(box: Quad, confidence: real, originalText: string, textConfidence: real,
                           translatedText: string, centerY: real, imageName: string, number: int)

  /** Labels present in the detector's class table: 0 bubble, 1 text
      bubble, 2 free text. */
  predicate IsKnownClass(classId: int) { 0 <= classId <= 2 }

  /** The filter: confident enough and not the bubble-only class. */
  predicate Kept(d: RawDetection, threshold: real) { d.score >= threshold && d.classId != 0 }

  /** A row the filter keeps but whose classId the class table lacks: looking
      its name up raises `KeyError`. */
  predicate Unknown(d: RawDetection, threshold: real) { Kept(d, threshold) && !IsKnownClass(d.classId) }

  /** Remapping of one model coordinate: truncate, scale, shift. The product
      is not rounded. */
  function RemapX(x: real, t: TileTransform): real { Affine(Trunc(x) as real, t.scaleX, t.leftOffset as real) }

  function RemapY(y: real, t: TileTransform): real { Affine(Trunc(y) as real, t.scaleY, t.topOffset as real) }

  function Affine(v: real, scale: real, offset: real): real { v * scale + offset }

  /** The four adjusted corners, before the cast to 32-bit integers. */
  function AdjustedCorners(d: RawDetection, t: TileTransform): Quad
  {
    RectQuad(RemapX(d.xmin, t), RemapY(d.ymin, t), RemapX(d.xmax, t), RemapY(d.ymax, t))
  }

  /** The cast of each adjusted coordinate to an integer (`np.int32`),
      which truncates toward zero. */
  function TruncPoint(p: Point): Point { Point(Trunc(p.x) as real, Trunc(p.y) as real) }

  function TruncQuad(q: Quad): Quad
  {
    Quad(TruncPoint(q.tl), TruncPoint(q.tr), TruncPoint(q.br), TruncPoint(q.bl))
  }

  /** The record built for a kept row: empty texts, zero text confidence,
      the detector score as confidence, the page-space corners cast to
      integers, and a centre taken from the adjusted (uncast) corners. */
  function MakeRegion(d: RawDetection, t: TileTransform, imageName: string, number: int): (r: Region)
    ensures r.originalText == "" && r.translatedText == "" && r.textConfidence == 0.0
    ensures r.confidence == d.score && r.imageName == imageName && r.number == number
  {
    var adjusted := AdjustedCorners(d, t);
    Region(TruncQuad(adjusted), d.score, "", 0.0, "", BBoxOf(adjusted).centerY, imageName, number)
  }

  /** The record's box is the upright rectangle, in TL, TR, BR, BL order,
      whose edges are the remapped model edges cast to integers. */
  lemma MakeRegionUpright(d: RawDetection, t: TileTransform, imageName: string, number: int)
    ensures MakeRegion(d, t, imageName, number).box
            == RectQuad(Trunc(RemapX(d.xmin, t)) as real, Trunc(RemapY(d.ymin, t)) as real,
                        Trunc(RemapX(d.xmax, t)) as real, Trunc(RemapY(d.ymax, t)) as real)
  {
  }

  /** With a well-formed model box and non-negative scales the page box is
      well formed too: left edge left of the right edge, top above bottom. */
  lemma MakeRegionOrdered(d: RawDetection, t: TileTransform, imageName: string, number: int)
    requires d.xmin <= d.xmax && d.ymin <= d.ymax && t.scaleX >= 0.0 && t.scaleY >= 0.0
    ensures var b := MakeRegion(d, t, imageName, number).box;
            b.tl.x <= b.tr.x && b.tl.y <= b.bl.y
  {
    MakeRegionUpright(d, t, imageName, number);
    RemapMonotone(d.xmin, d.xmax, t);
    RemapMonotone(d.ymin, d.ymax, t);
  }

  /** The recorded vertical centre is the midpoint of the remapped top and
      bottom edges before the cast to integers. */
  lemma MakeRegionCenter(d: RawDetection, t: TileTransform, imageName: string, number: int)
    requires d.xmin <= d.xmax && d.ymin <= d.ymax && t.scaleX >= 0.0 && t.scaleY >= 0.0
    ensures MakeRegion(d, t, imageName, number).centerY == (RemapY(d.ymin, t) + RemapY(d.ymax, t)) / 2.0
  {
    RemapMonotone(d.xmin, d.xmax, t);
    RemapMonotone(d.ymin, d.ymax, t);
    RectBounds(RemapX(d.xmin, t), RemapY(d.ymin, t), RemapX(d.xmax, t), RemapY(d.ymax, t));
  }

  /** Truncating and scaling by a non-negative factor keeps coordinates in
      order, so a well-formed model box stays well formed in page space. */
  lemma RemapMonotone(a: real, b: real, t: TileTransform)
    requires a <= b && t.scaleX >= 0.0 && t.scaleY >= 0.0
    ensures RemapX(a, t) <= RemapX(b, t) && Trunc(RemapX(a, t)) <= Trunc(RemapX(b, t))
    ensures RemapY(a, t) <= RemapY(b, t) && Trunc(RemapY(a, t)) <= Trunc(RemapY(b, t))
  {
    RemapXMonotone(a, b, t);
    RemapYMonotone(a, b, t);
  }

  lemma RemapXMonotone(a: real, b: real, t: TileTransform)
    requires a <= b && t.scaleX >= 0.0
    ensures RemapX(a, t) <= RemapX(b, t) && Trunc(RemapX(a, t)) <= Trunc(RemapX(b, t))
  {
    TruncMonotone(a, b);
    AffineMonotone(Trunc(a) as real, Trunc(b) as real, t.scaleX, t.leftOffset as real);
  }

  lemma RemapYMonotone(a: real, b: real, t: TileTransform)
    requires a <= b && t.scaleY >= 0.0
    ensures RemapY(a, t) <= RemapY(b, t) && Trunc(RemapY(a, t)) <= Trunc(RemapY(b, t))
  {
    TruncMonotone(a, b);
    AffineMonotone(Trunc(a) as real, Trunc(b) as real, t.scaleY, t.topOffset as real);
  }

  lemma AffineMonotone(a: real, b: real, scale: real, offset: real)
    requires a <= b && scale >= 0.0
    ensures Affine(a, scale, offset) <= Affine(b, scale, offset)
    ensures Trunc(Affine(a, scale, offset)) <= Trunc(Affine(b, scale, offset))
  {
    ScaleMonotone(a, b, scale);
    TruncMonotone(Affine(a, scale, offset), Affine(b, scale, offset));
  }

  lemma ScaleMonotone(a: real, b: real, scale: real)
    requires a <= b && scale >= 0.0
    ensures a * scale <= b * scale
  {
    assert (b - a) * scale >= 0.0;
  }

  lemma TruncMonotone(a: real, b: real)
    requires a <= b
    ensures Trunc(a) <= Trunc(b)
  {
  }

  /** On the non-tiled path an integral model box comes back unchanged. */
  lemma RemapWholeImageIdentity(d: RawDetection, xmin: int, ymin: int, xmax: int, ymax: int)
    requires d.xmin == xmin as real && d.ymin == ymin as real && d.xmax == xmax as real && d.ymax == ymax as real
    ensures MakeRegion(d, WholeImage, "", 0).box == RectQuad(d.xmin, d.ymin, d.xmax, d.ymax)
  {
    assert RemapX(d.xmin, WholeImage) == d.xmin;
    assert RemapX(d.xmax, WholeImage) == d.xmax;
    assert RemapY(d.ymin, WholeImage) == d.ymin;
    assert RemapY(d.ymax, WholeImage) == d.ymax;
  }

  /** Remapping truncates rather than rounds: on an unscaled tile a
      non-negative model coordinate lands on the page less than one pixel
      left of its exact position plus the offset, never right of it. */
  lemma RemapTruncates(x: real, offset: int)
    requires x >= 0.0
    ensures var t := TileTransform(0, offset, 1.0, 1.0);
            x + offset as real - 1.0 < RemapX(x, t) <= x + offset as real
            && RemapX(x, t) == (Trunc(x) + offset) as real
  {
  }

  /** Indices of the rows the filter keeps, in input order. */
  function KeptIndices(dets: seq<RawDetection>, threshold: real): (ks: seq<nat>)
    ensures forall i :: i in ks <==> 0 <= i < |dets| && Kept(dets[i], threshold)
    ensures forall k :: 0 <= k < |ks| ==> ks[k] < |dets|
    ensures StrictlyIncreasing(ks)
  {
    if |dets| == 0 then []
    else
      var n := |dets| - 1;
      var prefix := KeptIndices(dets[..n], threshold);
      assert forall i :: 0 <= i < n ==> dets[..n][i] == dets[i];
      assert forall k :: 0 <= k < |prefix| ==> prefix[k] < n by {
        assert forall k :: 0 <= k < |prefix| ==> prefix[k] in prefix;
      }
      if Kept(dets[n], threshold) then prefix + [n] else prefix
  }

  /** The filter-and-remap loop over one tile's detector rows. A kept row
      whose class is missing from the class table aborts the loop with that
      class (`KeyError`). */
  function FilterAndRemap(dets: seq<RawDetection>, threshold: real, t: TileTransform,
                          imageName: string, number: int): (r: Result<seq<Region>, int>)
    ensures r.Ok? ==> |r.value| <= |dets|
  {
    if |dets| == 0 then Ok([])
    else
      var n := |dets| - 1;
      var d := dets[n];
      match FilterAndRemap(dets[..n], threshold, t, imageName, number)
      case Err(classId) => Err(classId)
      case Ok(regions) =>
        if !Kept(d, threshold) then Ok(regions)
        else if !IsKnownClass(d.classId) then Err(d.classId)
        else Ok(regions + [MakeRegion(d, t, imageName, number)])
  }

  /** The loop fails iff some row is kept with an unknown class, and then
      with the class of the FIRST such row: rows dropped before the lookup
      never raise. */
  lemma {:induction false} FilterAndRemapFails(dets: seq<RawDetection>, threshold: real, t: TileTransform,
                                               imageName: string, number: int)
    ensures var r := FilterAndRemap(dets, threshold, t, imageName, number);
            (r.Err? <==> exists i :: 0 <= i < |dets| && Unknown(dets[i], threshold))
            && (r.Err? ==> exists i :: 0 <= i < |dets| && Unknown(dets[i], threshold) && r.error == dets[i].classId
                                       && forall j :: 0 <= j < i ==> !Unknown(dets[j], threshold))
  {
    if |dets| > 0 {
      var n := |dets| - 1;
      var prefix := dets[..n];
      FilterAndRemapFails(prefix, threshold, t, imageName, number);
      assert forall i :: 0 <= i < n ==> prefix[i] == dets[i];
      var before := FilterAndRemap(prefix, threshold, t, imageName, number);
      var r := FilterAndRemap(dets, threshold, t, imageName, number);
      if before.Err? {
        assert r == before;
        var i :| 0 <= i < n && Unknown(prefix[i], threshold) && before.error == prefix[i].classId
                 && forall j :: 0 <= j < i ==> !Unknown(prefix[j], threshold);
        assert Unknown(dets[i], threshold) && forall j :: 0 <= j < i ==> !Unknown(dets[j], threshold);
      } else if Unknown(dets[n], threshold) {
        assert r == Err(dets[n].classId);
        assert forall j :: 0 <= j < n ==> !Unknown(dets[j], threshold);
      } else {
        assert r.Ok?;
        assert forall j :: 0 <= j < n ==> !Unknown(dets[j], threshold);
      }
    }
  }

  /** On success the loop keeps exactly the rows whose score reaches the
      threshold and whose class is not 0, in input order, each turned into
      its record by `MakeRegion`. */
  predicate KeepsKept(dets: seq<RawDetection>, threshold: real, t: TileTransform, imageName: string, number: int)
  {
    var r := FilterAndRemap(dets, threshold, t, imageName, number);
    var ks := KeptIndices(dets, threshold);
    r.Ok? ==> |r.value| == |ks|
              && forall k :: 0 <= k < |ks| ==> r.value[k] == MakeRegion(dets[ks[k]], t, imageName, number)
  }

  lemma {:induction false} FilterAndRemapKeeps(dets: seq<RawDetection>, threshold: real, t: TileTransform,
                                               imageName: string, number: int)
    ensures KeepsKept(dets, threshold, t, imageName, number)
  {
    if |dets| > 0 {
      FilterAndRemapKeeps(dets[..|dets| - 1], threshold, t, imageName, number);
      KeepsKeptStep(dets, threshold, t, imageName, number);
    }
  }

  lemma KeepsKeptStep(dets: seq<RawDetection>, threshold: real, t: TileTransform, imageName: string, number: int)
    requires |dets| > 0 && KeepsKept(dets[..|dets| - 1], threshold, t, imageName, number)
    ensures KeepsKept(dets, threshold, t, imageName, number)
  {
    var n := |dets| - 1;
    var prefix := dets[..n];
    var before := FilterAndRemap(prefix, threshold, t, imageName, number);
    var r := FilterAndRemap(dets, threshold, t, imageName, number);
    var ksBefore := KeptIndices(prefix, threshold);
    var ks := KeptIndices(dets, threshold);
    if r.Ok? {
      assert before.Ok?;
      var extra := if Kept(dets[n], threshold) then [MakeRegion(dets[n], t, imageName, number)] else [];
      assert ks == ksBefore + (if Kept(dets[n], threshold) then [n] else []);
      assert r.value == before.value + extra;
      forall k | 0 <= k < |ks|
        ensures r.value[k] == MakeRegion(dets[ks[k]], t, imageName, number)
      {
        if k < |ksBefore| {
          assert ks[k] == ksBefore[k] && r.value[k] == before.value[k];
          assert dets[ks[k]] == prefix[ksBefore[k]];
        } else {
          assert ks[k] == n && r.value[k] == extra[0];
        }
      }
    }
  }

  function CoordsOf(r: Region): BBox { BBoxOf(r.box) }

  /** Fields a merge never touches. */
  predicate SameIdentity(a: Region, b: Region)
  {
    a.confidence == b.confidence && a.textConfidence == b.textConfidence
    && a.translatedText == b.translatedText && a.imageName == b.imageName && a.number == b.number
  }

  /** The merge test: the 2-D IoU of the detection with the block is
      strictly above the threshold. */
  predicate Absorbs(block: Region, cur: BBox, threshold: real)
  {
    Iou2D(cur, CoordsOf(block)) > threshold
  }

  /** The first block, from index `i` on, whose IoU with `cur` is strictly
      above the threshold. */
  function FirstOverlapFrom(blocks: seq<Region>, cur: BBox, threshold: real, i: nat): (r: Option<nat>)
    requires i <= |blocks|
    ensures r.Some? ==> i <= r.value < |blocks|
    decreases |blocks| - i
  {
    if i == |blocks| then None
    else if Absorbs(blocks[i], cur, threshold) then Some(i)
    else FirstOverlapFrom(blocks, cur, threshold, i + 1)
  }

  /** The search finds the first block from `i` on whose IoU with `cur` is
      strictly above the threshold, and reports none only when no such
      block exists. */
  lemma {:induction false} FirstOverlapFromSpec(blocks: seq<Region>, cur: BBox, threshold: real, i: nat)
    requires i <= |blocks|
    ensures var r := FirstOverlapFrom(blocks, cur, threshold, i);
            (r.Some? ==> Absorbs(blocks[r.value], cur, threshold)
                         && forall j {:trigger Absorbs(blocks[j], cur, threshold)} ::
                              i <= j < r.value ==> !Absorbs(blocks[j], cur, threshold))
            && (r.None? ==> forall j {:trigger Absorbs(blocks[j], cur, threshold)} ::
                              i <= j < |blocks| ==> !Absorbs(blocks[j], cur, threshold))
    decreases |blocks| - i
  {
    var r := FirstOverlapFrom(blocks, cur, threshold, i);
    if i == |blocks| {
      assert r.None?;
    } else if Absorbs(blocks[i], cur, threshold) {
      assert r == Some(i);
    } else {
      FirstOverlapFromSpec(blocks, cur, threshold, i + 1);
      assert r == FirstOverlapFrom(blocks, cur, threshold, i + 1);
    }
  }

  /** A block absorbing a detection: the bounding rectangle of both, its
      recomputed vertical centre, and the texts joined by one space. */
  function Absorb(block: Region, cur: Region): (r: Region)
    ensures Within(CoordsOf(block), CoordsOf(r)) && Within(CoordsOf(cur), CoordsOf(r))
    ensures forall c: BBox :: Within(CoordsOf(block), c) && Within(CoordsOf(cur), c) ==> Within(CoordsOf(r), c)
    ensures r.centerY == CoordsOf(r).centerY
    ensures r.originalText == block.originalText + " " + cur.originalText
    ensures SameIdentity(r, block)
  {
    var e := CoordsOf(block);
    var c := CoordsOf(cur);
    var box := UnionRect(e, c);
    RectBounds(MinReal(e.minX, c.minX), MinReal(e.minY, c.minY), MaxReal(e.maxX, c.maxX), MaxReal(e.maxY, c.maxY));
    block.(originalText := block.originalText + " " + cur.originalText,
           box := box,
           centerY := (MinReal(e.minY, c.minY) + MaxReal(e.maxY, c.maxY)) / 2.0)
  }

  /** The merged box is exactly the component-wise union of the two boxes. */
  lemma AbsorbCoords(block: Region, cur: Region)
    ensures var e, c := CoordsOf(block), CoordsOf(cur);
            CoordsOf(Absorb(block, cur))
            == BBox(MinReal(e.minX, c.minX), MinReal(e.minY, c.minY), MaxReal(e.maxX, c.maxX), MaxReal(e.maxY, c.maxY),
                    (MinReal(e.minY, c.minY) + MaxReal(e.maxY, c.maxY)) / 2.0)
  {
    var e, c := CoordsOf(block), CoordsOf(cur);
    RectBounds(MinReal(e.minX, c.minX), MinReal(e.minY, c.minY), MaxReal(e.maxX, c.maxX), MaxReal(e.maxY, c.maxY));
  }

  /** One iteration of the outer loop: `cur` merges into the FIRST block
      whose IoU with it is strictly above the threshold, and only that block
      changes; with no such block it is appended unchanged. */
  function MergeStep(blocks: seq<Region>, cur: Region, threshold: real): (r: seq<Region>)
    ensures |r| == |blocks| || |r| == |blocks| + 1
    ensures |r| == |blocks| + 1 ==> r == blocks + [cur]
  {
    match FirstOverlapFrom(blocks, CoordsOf(cur), threshold, 0)
    case None => blocks + [cur]
    case Some(i) => blocks[i := Absorb(blocks[i], cur)]
  }

  /** Which block a detection lands in: it opens a new block iff no
      existing block has IoU strictly above the threshold with it, and
      otherwise merges into the FIRST such block, the only one that changes. */
  lemma MergeStepFirstOverlap(blocks: seq<Region>, cur: Region, threshold: real)
    ensures var r := MergeStep(blocks, cur, threshold);
            (|r| == |blocks| + 1 <==> forall j {:trigger Absorbs(blocks[j], CoordsOf(cur), threshold)} ::
                                        0 <= j < |blocks| ==> !Absorbs(blocks[j], CoordsOf(cur), threshold))
            && (|r| == |blocks| ==>
                  exists i :: 0 <= i < |blocks| && Absorbs(blocks[i], CoordsOf(cur), threshold)
                              && (forall j {:trigger Absorbs(blocks[j], CoordsOf(cur), threshold)} ::
                                    0 <= j < i ==> !Absorbs(blocks[j], CoordsOf(cur), threshold))
                              && r == blocks[i := Absorb(blocks[i], cur)])
  {
    FirstOverlapFromSpec(blocks, CoordsOf(cur), threshold, 0);
  }

  /** A merge step only grows blocks and never touches their identity
      fields, and the new detection ends up inside some block. */
  lemma MergeStepGrows(blocks: seq<Region>, cur: Region, threshold: real)
    ensures var r := MergeStep(blocks, cur, threshold);
            (forall j :: 0 <= j < |blocks| ==> Within(CoordsOf(blocks[j]), CoordsOf(r[j])) && SameIdentity(r[j], blocks[j]))
            && exists j :: 0 <= j < |r| && Within(CoordsOf(cur), CoordsOf(r[j]))
  {
    var r := MergeStep(blocks, cur, threshold);
    match FirstOverlapFrom(blocks, CoordsOf(cur), threshold, 0)
    case None =>
      assert r == blocks + [cur];
      assert r[|blocks|] == cur;
      forall j | 0 <= j < |blocks|
        ensures Within(CoordsOf(blocks[j]), CoordsOf(r[j])) && SameIdentity(r[j], blocks[j])
      {
        assert r[j] == blocks[j];
      }
    case Some(i) =>
      var a := Absorb(blocks[i], cur);
      assert r == blocks[i := a];
      assert Within(CoordsOf(cur), CoordsOf(r[i]));
      forall j | 0 <= j < |blocks|
        ensures Within(CoordsOf(blocks[j]), CoordsOf(r[j])) && SameIdentity(r[j], blocks[j])
      {
        if j != i {
          assert r[j] == blocks[j];
        }
      }
  }

  /** `merge_overlapping_boxes`: the blocks after the detections have been
      merged in arrival order. Never more blocks than detections, none for
      no detections, and at least one otherwise. */
  function MergeOverlapping(results: seq<Region>, threshold: real): (r: seq<Region>)
    ensures |r| <= |results|
    ensures |results| == 0 <==> |r| == 0
  {
    if |results| == 0 then []
    else MergeStep(MergeOverlapping(results[..|results| - 1], threshold), results[|results| - 1], threshold)
  }

  /** Some block's box contains `b`. */
  predicate CoveredBy(b: BBox, blocks: seq<Region>)
  {
    exists j :: 0 <= j < |blocks| && Within(b, CoordsOf(blocks[j]))
  }

  lemma StepKeepsCovered(b: BBox, blocks: seq<Region>, cur: Region, threshold: real)
    requires CoveredBy(b, blocks)
    ensures CoveredBy(b, MergeStep(blocks, cur, threshold))
  {
    var r := MergeStep(blocks, cur, threshold);
    var j :| 0 <= j < |blocks| && Within(b, CoordsOf(blocks[j]));
    MergeStepGrows(blocks, cur, threshold);
    WithinTransitive(b, CoordsOf(blocks[j]), CoordsOf(r[j]));
  }

  /** Blocks only ever grow: every detection's box lies within some output
      box. */
  lemma {:induction false} MergeCoversInputs(results: seq<Region>, threshold: real)
    ensures forall k :: 0 <= k < |results| ==> CoveredBy(CoordsOf(results[k]), MergeOverlapping(results, threshold))
  {
    if |results| > 0 {
      var n := |results| - 1;
      var prefix := results[..n];
      var before := MergeOverlapping(prefix, threshold);
      var after := MergeOverlapping(results, threshold);
      assert after == MergeStep(before, results[n], threshold);
      MergeCoversInputs(prefix, threshold);
      forall k | 0 <= k < |results|
        ensures CoveredBy(CoordsOf(results[k]), after)
      {
        if k < n {
          assert CoveredBy(CoordsOf(results[k]), before) by {
            assert results[k] == prefix[k];
          }
          StepKeepsCovered(CoordsOf(results[k]), before, results[n], threshold);
        } else {
          assert k == n;
          MergeStepGrows(before, results[n], threshold);
        }
      }
    }
  }

  /** For each output block, the index of the detection that opened it. */
  function Origins(results: seq<Region>, threshold: real): seq<nat>
  {
    if |results| == 0 then []
    else
      var n := |results| - 1;
      var before := MergeOverlapping(results[..n], threshold);
      if FirstOverlapFrom(before, CoordsOf(results[n]), threshold, 0).None?
      then Origins(results[..n], threshold) + [n]
      else Origins(results[..n], threshold)
  }

  /** Output block `j` was opened by detection `os[j]`: it keeps that
      detection's untouched fields, holds its box, and its text starts with
      that detection's text. */
  predicate OpenedBy(block: Region, opener: Region)
  {
    SameIdentity(block, opener) && Within(CoordsOf(opener), CoordsOf(block))
    && opener.originalText <= block.originalText
  }

  predicate ArrivalOrder(results: seq<Region>, threshold: real)
  {
    var out := MergeOverlapping(results, threshold);
    var os := Origins(results, threshold);
    |os| == |out| && StrictlyIncreasing(os)
    && (forall j :: 0 <= j < |os| ==> os[j] < |results|)
    && forall j :: 0 <= j < |os| ==> OpenedBy(out[j], results[os[j]])
  }

  /** First-seen canonical order: block `j` of the output was opened by
      detection `Origins[j]`, and those indices increase, so the blocks come
      out in the order their first detections arrived. */
  lemma {:induction false} MergeKeepsArrivalOrder(results: seq<Region>, threshold: real)
    ensures ArrivalOrder(results, threshold)
  {
    if |results| > 0 {
      MergeKeepsArrivalOrder(results[..|results| - 1], threshold);
      ArrivalOrderStep(results, threshold);
    }
  }

  lemma ArrivalOrderStep(results: seq<Region>, threshold: real)
    requires |results| > 0 && ArrivalOrder(results[..|results| - 1], threshold)
    ensures ArrivalOrder(results, threshold)
  {
    var n := |results| - 1;
    if FirstOverlapFrom(MergeOverlapping(results[..n], threshold), CoordsOf(results[n]), threshold, 0).None? {
      ArrivalOrderOpen(results, threshold);
    } else {
      ArrivalOrderAbsorb(results, threshold);
    }
  }

  /** The new detection opens a block at the end. */
  lemma ArrivalOrderOpen(results: seq<Region>, threshold: real)
    requires |results| > 0 && ArrivalOrder(results[..|results| - 1], threshold)
    requires FirstOverlapFrom(MergeOverlapping(results[..|results| - 1], threshold), CoordsOf(results[|results| - 1]), threshold, 0).None?
    ensures ArrivalOrder(results, threshold)
  {
    var n := |results| - 1;
    var prefix := results[..n];
    var before := MergeOverlapping(prefix, threshold);
    var out := MergeOverlapping(results, threshold);
    var osBefore := Origins(prefix, threshold);
    var os := Origins(results, threshold);
    assert out == before + [results[n]];
    assert os == osBefore + [n];
    IncreasingSnoc(osBefore, n);
    forall j | 0 <= j < |os|
      ensures os[j] < |results| && OpenedBy(out[j], results[os[j]])
    {
      if j < |osBefore| {
        assert out[j] == before[j] && os[j] == osBefore[j];
        assert prefix[osBefore[j]] == results[osBefore[j]];
      } else {
        assert out[j] == results[n] && os[j] == n;
      }
    }
  }

  /** The new detection grows an existing block; the openers stay. */
  lemma ArrivalOrderAbsorb(results: seq<Region>, threshold: real)
    requires |results| > 0 && ArrivalOrder(results[..|results| - 1], threshold)
    requires FirstOverlapFrom(MergeOverlapping(results[..|results| - 1], threshold), CoordsOf(results[|results| - 1]), threshold, 0).Some?
    ensures ArrivalOrder(results, threshold)
  {
    var n := |results| - 1;
    var prefix := results[..n];
    var before := MergeOverlapping(prefix, threshold);
    var out := MergeOverlapping(results, threshold);
    var osBefore := Origins(prefix, threshold);
    var os := Origins(results, threshold);
    var i := FirstOverlapFrom(before, CoordsOf(results[n]), threshold, 0).value;
    assert out == before[i := Absorb(before[i], results[n])];
    assert os == osBefore;
    forall j | 0 <= j < |os|
      ensures OpenedBy(out[j], results[os[j]])
    {
      assert prefix[osBefore[j]] == results[osBefore[j]];
      if j == i {
        AbsorbKeepsOpener(before[i], results[n], results[os[i]]);
      } else {
        assert out[j] == before[j];
      }
    }
  }

  lemma AbsorbKeepsOpener(block: Region, cur: Region, opener: Region)
    requires OpenedBy(block, opener)
    ensures OpenedBy(Absorb(block, cur), opener)
  {
    var r := Absorb(block, cur);
    WithinTransitive(CoordsOf(opener), CoordsOf(block), CoordsOf(r));
    assert block.originalText <= r.originalText;
  }

  /** Rectangles of height 10 used to show that merging is not idempotent:
      A spans x in [0, 10], C spans [20, 30] and B spans [5, 25]. */
  function ExampleRegion(minX: real, maxX: real): Region
  {
    Region(RectQuad(minX, 0.0, maxX, 10.0), 1.0, "", 0.0, "", 5.0, "", 0)
  }

  lemma ExampleCoords(minX: real, maxX: real)
    requires minX <= maxX
    ensures CoordsOf(ExampleRegion(minX, maxX)) == BBox(minX, 0.0, maxX, 10.0, 5.0)
  {
    RectBounds(minX, 0.0, maxX, 10.0);
  }

  /** A merge of one detection is that detection. */
  lemma MergeSingle(a: Region, threshold: real)
    ensures MergeOverlapping([a], threshold) == [a]
  {
    assert [a][..0] == [];
  }

  /** C does not overlap A. */
  lemma ExampleIouAC()
    ensures Iou2D(BBox(20.0, 0.0, 30.0, 10.0, 5.0), BBox(0.0, 0.0, 10.0, 10.0, 5.0)) == 0.0
  {
  }

  /** B overlaps A. */
  lemma ExampleIouBA()
    ensures Iou2D(BBox(5.0, 0.0, 25.0, 10.0, 5.0), BBox(0.0, 0.0, 10.0, 10.0, 5.0)) > 0.0
  {
  }

  /** C overlaps A grown by B. */
  lemma ExampleIouCAB()
    ensures Iou2D(BBox(20.0, 0.0, 30.0, 10.0, 5.0), BBox(0.0, 0.0, 25.0, 10.0, 5.0)) > 0.0
  {
  }

  /** Two detections that do not overlap stay two blocks. */
  lemma MergeTwoApart(a: Region, c: Region, threshold: real)
    requires !Absorbs(a, CoordsOf(c), threshold)
    ensures MergeOverlapping([a, c], threshold) == [a, c]
  {
    MergeSingle(a, threshold);
    assert [a, c][..1] == [a];
  }

  /** Two detections that overlap become one block. */
  lemma MergeTwoJoin(a: Region, c: Region, threshold: real)
    requires Absorbs(a, CoordsOf(c), threshold)
    ensures MergeOverlapping([a, c], threshold) == [Absorb(a, c)]
  {
    MergeSingle(a, threshold);
    assert [a, c][..1] == [a];
  }

  /** A, C, B where only B overlaps A: B joins A's block and C keeps its own. */
  lemma MergeThree(a: Region, c: Region, b: Region, threshold: real)
    requires !Absorbs(a, CoordsOf(c), threshold) && Absorbs(a, CoordsOf(b), threshold)
    ensures MergeOverlapping([a, c, b], threshold) == [Absorb(a, b), c]
  {
    var s := [a, c, b];
    assert s[..2] == [a, c];
    MergeTwoApart(a, c, threshold);
    assert MergeOverlapping(s, threshold) == MergeStep([a, c], b, threshold);
    assert FirstOverlapFrom([a, c], CoordsOf(b), threshold, 0) == Some(0);
  }

  /** A, C, B where B overlaps A, C does not overlap A but does overlap A
      grown by B: one pass leaves two blocks, a second pass joins them. */
  lemma MergeTwice(a: Region, c: Region, b: Region, threshold: real)
    requires !Absorbs(a, CoordsOf(c), threshold) && Absorbs(a, CoordsOf(b), threshold)
    requires Absorbs(Absorb(a, b), CoordsOf(c), threshold)
    ensures MergeOverlapping([a, c, b], threshold) == [Absorb(a, b), c]
    ensures MergeOverlapping([Absorb(a, b), c], threshold) == [Absorb(Absorb(a, b), c)]
  {
    MergeThree(a, c, b, threshold);
    MergeTwoJoin(Absorb(a, b), c, threshold);
  }

  lemma ExampleApart(a: Region, c: Region)
    requires a == ExampleRegion(0.0, 10.0) && c == ExampleRegion(20.0, 30.0)
    ensures !Absorbs(a, CoordsOf(c), 0.0)
  {
    ExampleCoords(0.0, 10.0);
    ExampleCoords(20.0, 30.0);
    ExampleIouAC();
  }

  lemma ExampleJoin(a: Region, b: Region)
    requires a == ExampleRegion(0.0, 10.0) && b == ExampleRegion(5.0, 25.0)
    ensures Absorbs(a, CoordsOf(b), 0.0)
  {
    ExampleCoords(0.0, 10.0);
    ExampleCoords(5.0, 25.0);
    ExampleIouBA();
  }

  /** A grown by B spans x in [0, 25]. */
  lemma ExampleGrown(a: Region, b: Region)
    requires a == ExampleRegion(0.0, 10.0) && b == ExampleRegion(5.0, 25.0)
    ensures CoordsOf(Absorb(a, b)) == BBox(0.0, 0.0, 25.0, 10.0, 5.0)
  {
    ExampleCoords(0.0, 10.0);
    ExampleCoords(5.0, 25.0);
    AbsorbCoords(a, b);
  }

  /** ... and so overlaps C. */
  lemma ExampleRejoin(a: Region, b: Region, c: Region)
    requires a == ExampleRegion(0.0, 10.0) && b == ExampleRegion(5.0, 25.0) && c == ExampleRegion(20.0, 30.0)
    ensures Absorbs(Absorb(a, b), CoordsOf(c), 0.0)
  {
    ExampleGrown(a, b);
    ExampleCoords(20.0, 30.0);
    ExampleIouCAB();
  }

  /** Running the merge on its own output can merge further: with
      threshold 0, A, C, B gives two blocks, and merging those gives one. */
  lemma MergeOverlappingNotIdempotent(a: Region, c: Region, b: Region)
    requires a == ExampleRegion(0.0, 10.0) && c == ExampleRegion(20.0, 30.0) && b == ExampleRegion(5.0, 25.0)
    ensures var once := MergeOverlapping([a, c, b], 0.0);
            |once| == 2 && |MergeOverlapping(once, 0.0)| == 1 && MergeOverlapping(once, 0.0) != once
  {
    ExampleApart(a, c);
    ExampleJoin(a, b);
    ExampleRejoin(a, b, c);
    MergeTwice(a, c, b, 0.0);
  }
}

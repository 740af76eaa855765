/** The two overlap ratios the consolidator relies on: the full 2-D
    intersection over union used to merge tile duplicates, and the 1-D
    vertical ratio used to deduplicate OCR lines. */
module Iou {
  import opened Common
  import opened Boxes

  function Width(b: BBox): real { b.maxX - b.minX }

  function Height(b: BBox): real { b.maxY - b.minY }

  function Area(b: BBox): real { Width(b) * Height(b) }

  /** Length of the positive overlap of [lo1, hi1] and [lo2, hi2], 0 when
      they do not overlap. */
  function Overlap(lo1: real, hi1: real, lo2: real, hi2: real): (r: real)
    ensures r >= 0.0
    ensures r > 0.0 <==> MaxReal(lo1, lo2) < MinReal(hi1, hi2)
  {
    MaxReal(0.0, MinReal(hi1, hi2) - MaxReal(lo1, lo2))
  }

  function InterArea(b1: BBox, b2: BBox): real
  {
    Overlap(b1.minX, b1.maxX, b2.minX, b2.maxX) * Overlap(b1.minY, b1.maxY, b2.minY, b2.maxY)
  }

  function UnionArea(b1: BBox, b2: BBox): real
  {
    Area(b1) + Area(b2) - InterArea(b1, b2)
  }

  /** `calculate_iou_2d`: intersection area over union area, 0 when the
      union area is 0. */
  function Iou2D(b1: BBox, b2: BBox): real
  {
    var union := UnionArea(b1, b2);
    if union == 0.0 then 0.0 else InterArea(b1, b2) / union
  }

  /** For well-formed boxes the 2-D IoU lies in [0, 1]; it is 0 as soon as
      the boxes fail to overlap positively on either axis and positive when
      they overlap on both; a well-formed box of positive area has IoU 1
      with itself. */
  lemma Iou2DRange(b1: BBox, b2: BBox)
    ensures UnionArea(b1, b2) == 0.0 ==> Iou2D(b1, b2) == 0.0
    ensures WellFormed(b1) && WellFormed(b2) ==> 0.0 <= Iou2D(b1, b2) <= 1.0
    ensures MinReal(b1.maxX, b2.maxX) <= MaxReal(b1.minX, b2.minX) ==> Iou2D(b1, b2) == 0.0
    ensures MinReal(b1.maxY, b2.maxY) <= MaxReal(b1.minY, b2.minY) ==> Iou2D(b1, b2) == 0.0
    ensures b1 == b2 && WellFormed(b1) && Area(b1) > 0.0 ==> Iou2D(b1, b2) == 1.0
    ensures (WellFormed(b1) && WellFormed(b2)
             && MaxReal(b1.minX, b2.minX) < MinReal(b1.maxX, b2.maxX)
             && MaxReal(b1.minY, b2.minY) < MinReal(b1.maxY, b2.maxY)) ==> Iou2D(b1, b2) > 0.0
  {
    Iou2DZero(b1, b2);
    if WellFormed(b1) && WellFormed(b2) {
      Iou2DUnit(b1, b2);
    }
    if b1 == b2 && WellFormed(b1) && Area(b1) > 0.0 {
      Iou2DSelf(b1);
    }
  }

  lemma Iou2DZero(b1: BBox, b2: BBox)
    ensures UnionArea(b1, b2) == 0.0 ==> Iou2D(b1, b2) == 0.0
    ensures MinReal(b1.maxX, b2.maxX) <= MaxReal(b1.minX, b2.minX) ==> Iou2D(b1, b2) == 0.0
    ensures MinReal(b1.maxY, b2.maxY) <= MaxReal(b1.minY, b2.minY) ==> Iou2D(b1, b2) == 0.0
  {
    var ox := Overlap(b1.minX, b1.maxX, b2.minX, b2.maxX);
    var oy := Overlap(b1.minY, b1.maxY, b2.minY, b2.maxY);
    if ox == 0.0 || oy == 0.0 {
      assert InterArea(b1, b2) == 0.0;
    }
  }

  lemma Iou2DUnit(b1: BBox, b2: BBox)
    requires WellFormed(b1) && WellFormed(b2)
    ensures 0.0 <= Iou2D(b1, b2) <= 1.0
    ensures (MaxReal(b1.minX, b2.minX) < MinReal(b1.maxX, b2.maxX)
             && MaxReal(b1.minY, b2.minY) < MinReal(b1.maxY, b2.maxY)) ==> Iou2D(b1, b2) > 0.0
  {
    var ox := Overlap(b1.minX, b1.maxX, b2.minX, b2.maxX);
    var oy := Overlap(b1.minY, b1.maxY, b2.minY, b2.maxY);
    var inter := InterArea(b1, b2);
    var union := UnionArea(b1, b2);
    InterWithinAreas(b1, b2);
    if ox > 0.0 && oy > 0.0 {
      MulPositive(ox, oy);
    }
    if union != 0.0 {
      DivUnit(inter, union);
      if inter > 0.0 {
        DivPositive(inter, union);
      }
    }
  }

  lemma Iou2DSelf(b: BBox)
    requires WellFormed(b) && Area(b) > 0.0
    ensures Iou2D(b, b) == 1.0
  {
    assert Overlap(b.minX, b.maxX, b.minX, b.maxX) == Width(b);
    assert Overlap(b.minY, b.maxY, b.minY, b.maxY) == Height(b);
    assert InterArea(b, b) == Area(b);
    assert UnionArea(b, b) == Area(b);
    assert Area(b) / Area(b) == 1.0;
  }

  lemma MulMono(a: real, b: real, c: real, d: real)
    requires 0.0 <= a <= c && 0.0 <= b <= d
    ensures 0.0 <= a * b <= c * d
  {
    assert a * b <= c * b by {
      assert (c - a) * b >= 0.0;
    }
    assert c * b <= c * d by {
      assert c * (d - b) >= 0.0;
    }
  }

  lemma MulPositive(a: real, b: real)
    requires a > 0.0 && b > 0.0
    ensures a * b > 0.0
  {
  }

  lemma DivUnit(x: real, y: real)
    requires 0.0 <= x <= y && y > 0.0
    ensures 0.0 <= x / y <= 1.0
  {
    assert x / y * y == x;
  }

  lemma DivPositive(x: real, y: real)
    requires x > 0.0 && y > 0.0
    ensures x / y > 0.0
  {
    assert x / y * y == x;
  }

  /** The overlap of two well-formed boxes is no larger than either box, so
      the union area is at least the intersection area. */
  lemma InterWithinAreas(b1: BBox, b2: BBox)
    requires WellFormed(b1) && WellFormed(b2)
    ensures 0.0 <= InterArea(b1, b2) <= Area(b1) && InterArea(b1, b2) <= Area(b2)
    ensures 0.0 <= Area(b1) && 0.0 <= Area(b2)
    ensures UnionArea(b1, b2) >= Area(b1) && UnionArea(b1, b2) >= Area(b2)
  {
    var ox := Overlap(b1.minX, b1.maxX, b2.minX, b2.maxX);
    var oy := Overlap(b1.minY, b1.maxY, b2.minY, b2.maxY);
    MulMono(ox, oy, Width(b1), Height(b1));
    MulMono(ox, oy, Width(b2), Height(b2));
  }

  /** Swapping the two boxes does not change their 2-D IoU. */
  lemma Iou2DSymmetric(b1: BBox, b2: BBox)
    ensures Iou2D(b1, b2) == Iou2D(b2, b1)
  {
    assert Overlap(b1.minX, b1.maxX, b2.minX, b2.maxX) == Overlap(b2.minX, b2.maxX, b1.minX, b1.maxX);
    assert Overlap(b1.minY, b1.maxY, b2.minY, b2.maxY) == Overlap(b2.minY, b2.maxY, b1.minY, b1.maxY);
    assert InterArea(b1, b2) == InterArea(b2, b1);
    assert UnionArea(b1, b2) == UnionArea(b2, b1);
  }

  /** `calculate_iou_vertical`: overlap of the two vertical extents over the
      LARGER of the two heights, 0 without positive overlap. Because the
      denominator is the larger height the ratio never exceeds 1, whatever
      the boxes. */
  function IouVertical(b1: BBox, b2: BBox): (r: real)
    ensures MinReal(b1.maxY, b2.maxY) <= MaxReal(b1.minY, b2.minY) ==> r == 0.0
    ensures 0.0 <= r <= 1.0
    ensures MaxReal(b1.minY, b2.minY) < MinReal(b1.maxY, b2.maxY) ==> r > 0.0
  {
    var interMin := MaxReal(b1.minY, b2.minY);
    var interMax := MinReal(b1.maxY, b2.maxY);
    if interMax <= interMin then 0.0
    else
      var inter := interMax - interMin;
      var denom := MaxReal(Height(b1), Height(b2));
      if denom == 0.0 then 0.0
      else
        DivUnit(inter, denom);
        assert inter / denom > 0.0 by {
          assert inter / denom * denom == inter;
        }
        inter / denom
  }

  /** Swapping the two boxes does not change their vertical IoU. */
  lemma IouVerticalSymmetric(b1: BBox, b2: BBox)
    ensures IouVertical(b1, b2) == IouVertical(b2, b1)
  {
  }
}

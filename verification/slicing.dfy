/** `slice_image_horizontally`: full-width horizontal bands of a fixed
    height, stepping down the page and pulling the last band up so that it
    keeps its full height. Only the offsets are modelled. */
module Slicing {
  import opened Common
  import opened Tiling

  /** One band: its top and bottom offsets; its left offset is always 0
      and it spans the full width. */
  datatype Band = Band(top: int, bottom: int, leftOffset: int)

  /** The bands produced from loop position `pos` on: `bottom` is capped at
      the page height, a band cut short is moved up to end at the bottom
      (but not above 0), and the loop stops after the band that reaches the
      bottom or when `range` runs out. */
  function BandsFrom(pos: int, height: int, sliceHeight: int, step: int): seq<Band>
    requires step > 0
    decreases height - pos
  {
    if pos >= height then []
    else
      var bottom := MinInt(pos + sliceHeight, height);
      var top := MaxInt(0, if bottom - pos < sliceHeight then height - sliceHeight else pos);
      [Band(top, bottom, 0)] + (if bottom == height then [] else BandsFrom(pos + step, height, sliceHeight, step))
  }

  /** `slice_image_horizontally(image, slice_height, overlap)`; the step is
      the tiling stride rule. */
  function SliceHorizontally(height: int, sliceHeight: int, overlap: int): seq<Band>
    requires sliceHeight > 0
  {
    BandsFrom(0, height, sliceHeight, Stride(sliceHeight, overlap))
  }

  /** Every band lies inside the page, is not empty and starts at the left
      edge. */
  predicate InPage(bands: seq<Band>, height: int)
  {
    forall k :: 0 <= k < |bands| ==> 0 <= bands[k].top < bands[k].bottom <= height && bands[k].leftOffset == 0
  }

  /** Every band has exactly the slice height. */
  predicate FullHeight(bands: seq<Band>, sliceHeight: int)
  {
    forall k :: 0 <= k < |bands| ==> bands[k].bottom - bands[k].top == sliceHeight
  }

  lemma {:induction false} BandsInPage(pos: int, height: int, sliceHeight: int, step: int)
    requires step > 0 && sliceHeight > 0 && pos >= 0
    ensures InPage(BandsFrom(pos, height, sliceHeight, step), height)
    ensures height >= sliceHeight ==> FullHeight(BandsFrom(pos, height, sliceHeight, step), sliceHeight)
    decreases height - pos
  {
    if pos < height {
      var bottom := MinInt(pos + sliceHeight, height);
      if bottom != height {
        BandsInPage(pos + step, height, sliceHeight, step);
      }
      var bs := BandsFrom(pos, height, sliceHeight, step);
      var rest := if bottom == height then [] else BandsFrom(pos + step, height, sliceHeight, step);
      assert bs == [bs[0]] + rest;
      forall k | 0 < k < |bs|
        ensures bs[k] == rest[k - 1]
      {
      }
    }
  }

  /** Bands stay inside the page and start at the left edge; on a page at
      least one slice tall every band is exactly one slice tall. */
  lemma SliceHorizontallyInPage(height: int, sliceHeight: int, overlap: int)
    requires sliceHeight > 0
    ensures InPage(SliceHorizontally(height, sliceHeight, overlap), height)
    ensures height >= sliceHeight ==> FullHeight(SliceHorizontally(height, sliceHeight, overlap), sliceHeight)
  {
    BandsInPage(0, height, sliceHeight, Stride(sliceHeight, overlap));
  }

  /** A page shorter than one slice gives exactly one band, the whole page. */
  lemma ShortPageOneBand(height: int, sliceHeight: int, overlap: int)
    requires 0 < height < sliceHeight
    ensures SliceHorizontally(height, sliceHeight, overlap) == [Band(0, height, 0)]
  {
  }

  /** Consecutive bands leave no gap, and the last band ends at the page
      bottom. */
  predicate Gapless(bands: seq<Band>, height: int)
  {
    (|bands| > 0 ==> bands[|bands| - 1].bottom == height)
    && forall k :: 0 <= k < |bands| - 1 ==> bands[k + 1].top <= bands[k].bottom
  }

  lemma {:induction false} BandsGapless(pos: int, height: int, sliceHeight: int, step: int)
    requires 0 < step <= sliceHeight && pos >= 0
    ensures Gapless(BandsFrom(pos, height, sliceHeight, step), height)
    ensures pos < height ==> |BandsFrom(pos, height, sliceHeight, step)| > 0
                             && BandsFrom(pos, height, sliceHeight, step)[0].top <= pos
    decreases height - pos
  {
    if pos < height {
      var bottom := MinInt(pos + sliceHeight, height);
      var top := MaxInt(0, if bottom - pos < sliceHeight then height - sliceHeight else pos);
      if bottom != height {
        BandsGapless(pos + step, height, sliceHeight, step);
        GaplessCons(Band(top, bottom, 0), BandsFrom(pos + step, height, sliceHeight, step), height);
      } else {
        GaplessCons(Band(top, bottom, 0), [], height);
      }
    }
  }

  /** A band in front of gapless bands that it reaches, or alone when it
      ends at the bottom, keeps them gapless. */
  lemma GaplessCons(b: Band, rest: seq<Band>, height: int)
    requires Gapless(rest, height)
    requires |rest| > 0 ==> rest[0].top <= b.bottom
    requires |rest| == 0 ==> b.bottom == height
    ensures Gapless([b] + rest, height)
  {
    var bs := [b] + rest;
    forall k | 0 <= k < |bs| - 1
      ensures bs[k + 1].top <= bs[k].bottom
    {
      assert bs[k + 1] == rest[k];
      if k > 0 {
        assert bs[k] == rest[k - 1];
      }
    }
    if |rest| > 0 {
      assert bs[|bs| - 1] == rest[|rest| - 1];
    }
  }

  /** With a non-negative overlap the bands cover the page from 0 to its
      bottom without gaps. */
  lemma SliceHorizontallyCovers(height: int, sliceHeight: int, overlap: int)
    requires sliceHeight > 0 && overlap >= 0 && height > 0
    ensures |SliceHorizontally(height, sliceHeight, overlap)| > 0
    ensures SliceHorizontally(height, sliceHeight, overlap)[0].top == 0
    ensures Gapless(SliceHorizontally(height, sliceHeight, overlap), height)
  {
    BandsGapless(0, height, sliceHeight, Stride(sliceHeight, overlap));
    BandsInPage(0, height, sliceHeight, Stride(sliceHeight, overlap));
  }
}

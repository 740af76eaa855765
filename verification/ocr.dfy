/** The OCR side of the pipeline: turning PaddleOCR's lines of each slice
    into page-space records, dropping the duplicates that overlapping slices
    produce, and grouping nearby lines into speech-bubble blocks. */
module Ocr {
  import opened Common
  import opened Text
  import opened Boxes
  import opened Iou

  /** One line as PaddleOCR reports it: four corners, text, confidence. */
  datatype OcrLine = OcrLine(points: Quad, text: string, confidence: real)

  /** The OCR output of one slice together with the slice's `top_offset`;
      `None` when the slice was a bare image without one. */
  datatype OcrSlice = OcrSlice(lines: seq<OcrLine>, topOffset: Option<int>)

  /** One result record: `box`, `original_text`, `confidence`, `center_y`,
      `translated_text` and `image_name`. */
  datatype TextRecord = TextRecord(box: Quad, originalText: string, confidence: real, centerY: real,
                                   translatedText: string, imageName: string)

  /** Lines below this confidence are dropped. */
  const MinConfidence: real := 0.6

  function CoordsOf(r: TextRecord): BBox { BBoxOf(r.box) }

  // ---------------------------------------------------------------------
  // Per-slice post-processing

  /** `f"image_{i:02d}"`: the index in decimal, padded with one leading
      zero below 10. */
  function SliceName(i: nat): string
  {
    "image_" + (if i < 10 then "0" else "") + NatToString(i)
  }

  /** The slice name spells the slice index in at least two digits, so
      distinct slices get distinct names. */
  lemma SliceNameSpellsIndex(i: nat)
    ensures var name := SliceName(i);
            |name| >= 8 && name[..6] == "image_" && AllDigits(name[6..])
            && DigitsValue(name[6..]) == i
            && (i < 100 <==> |name| == 8)
  {
    var digits := NatToString(i);
    NatToStringValue(i);
    if i < 10 {
      assert SliceName(i)[6..] == "0" + digits;
      LeadingZerosKeepValue(1, digits);
      assert Zeros(1) == "0";
    } else {
      assert SliceName(i)[6..] == digits;
      if i < 100 {
        NatToStringLength(i, 2);
      } else {
        DigitsValueBound(digits);
        assert Pow10(2) == 100;
      }
    }
  }

  lemma SliceNameInjective(i: nat, j: nat)
    requires SliceName(i) == SliceName(j)
    ensures i == j
  {
    SliceNameSpellsIndex(i);
    SliceNameSpellsIndex(j);
  }

  /** A slice without `top_offset` counts as offset 0. */
  function TopOffsetOf(s: OcrSlice): int
  {
    match s.topOffset
    case Some(off) => off
    case None => 0
  }

  function ShiftPoint(p: Point, dy: real): Point { Point(p.x, p.y + dy) }

  function ShiftQuad(q: Quad, dy: real): Quad
  {
    Quad(ShiftPoint(q.tl, dy), ShiftPoint(q.tr, dy), ShiftPoint(q.br, dy), ShiftPoint(q.bl, dy))
  }

  /** The record of a kept line: the corners moved down by the slice's
      offset, the centre recomputed from them, no translation yet. */
  function MakeRecord(line: OcrLine, topOffset: int, name: string): (r: TextRecord)
    ensures r.originalText == line.text && r.confidence == line.confidence
    ensures r.translatedText == "" && r.imageName == name
    ensures r.centerY == CoordsOf(r).centerY
  {
    var box := ShiftQuad(line.points, topOffset as real);
    TextRecord(box, line.text, line.confidence, BBoxOf(box).centerY, "", name)
  }

  /** Only the vertical coordinates move, and the bounds move with them. */
  lemma MakeRecordShiftsY(line: OcrLine, topOffset: int, name: string)
    ensures var r := MakeRecord(line, topOffset, name);
            var q, dy := line.points, topOffset as real;
            r.box.tl.x == q.tl.x && r.box.tr.x == q.tr.x && r.box.br.x == q.br.x && r.box.bl.x == q.bl.x
            && r.box.tl.y == q.tl.y + dy && r.box.tr.y == q.tr.y + dy
            && r.box.br.y == q.br.y + dy && r.box.bl.y == q.bl.y + dy
            && var b, o := CoordsOf(r), BBoxOf(q);
               b.minX == o.minX && b.maxX == o.maxX && b.minY == o.minY + dy && b.maxY == o.maxY + dy
               && r.centerY == o.centerY + dy
  {
  }

  /** Indices of the lines whose confidence reaches the minimum. */
  function ConfidentIndices(lines: seq<OcrLine>): (ks: seq<nat>)
    ensures forall i :: i in ks <==> 0 <= i < |lines| && lines[i].confidence >= MinConfidence
    ensures forall k :: 0 <= k < |ks| ==> ks[k] < |lines|
    ensures StrictlyIncreasing(ks)
  {
    if |lines| == 0 then []
    else
      var n := |lines| - 1;
      var prefix := ConfidentIndices(lines[..n]);
      assert forall i :: 0 <= i < n ==> lines[..n][i] == lines[i];
      assert forall k :: 0 <= k < |prefix| ==> prefix[k] < n by {
        assert forall k :: 0 <= k < |prefix| ==> prefix[k] in prefix;
      }
      if lines[n].confidence >= MinConfidence then prefix + [n] else prefix
  }

  /** The inner loop of `run_ocr_on_slices` over one slice's lines. */
  function SliceRecords(lines: seq<OcrLine>, topOffset: int, name: string): (r: seq<TextRecord>)
    ensures |r| <= |lines|
  {
    if |lines| == 0 then []
    else
      var n := |lines| - 1;
      var before := SliceRecords(lines[..n], topOffset, name);
      if lines[n].confidence < MinConfidence then before
      else before + [MakeRecord(lines[n], topOffset, name)]
  }

  /** The records of a slice are exactly its confident lines, in order. */
  predicate RecordsConfident(lines: seq<OcrLine>, topOffset: int, name: string)
  {
    var r := SliceRecords(lines, topOffset, name);
    var ks := ConfidentIndices(lines);
    |r| == |ks| && forall k :: 0 <= k < |ks| ==> r[k] == MakeRecord(lines[ks[k]], topOffset, name)
  }

  lemma {:induction false} SliceRecordsKeepConfident(lines: seq<OcrLine>, topOffset: int, name: string)
    ensures RecordsConfident(lines, topOffset, name)
  {
    if |lines| > 0 {
      var n := |lines| - 1;
      var prefix := lines[..n];
      SliceRecordsKeepConfident(prefix, topOffset, name);
      var before := SliceRecords(prefix, topOffset, name);
      var r := SliceRecords(lines, topOffset, name);
      var ksBefore := ConfidentIndices(prefix);
      var ks := ConfidentIndices(lines);
      forall k | 0 <= k < |ksBefore|
        ensures before[k] == MakeRecord(lines[ksBefore[k]], topOffset, name)
      {
        assert prefix[ksBefore[k]] == lines[ksBefore[k]];
      }
    }
  }

  /** `run_ocr_on_slices` after the OCR calls: slice `i` is named
      `image_{i:02d}` and its records follow those of the earlier slices. */
  function RunOcrOnSlices(slices: seq<OcrSlice>): (r: seq<TextRecord>)
  {
    if |slices| == 0 then []
    else
      var n := |slices| - 1;
      RunOcrOnSlices(slices[..n]) + SliceRecords(slices[n].lines, TopOffsetOf(slices[n]), SliceName(n))
  }

  /** A further slice appends its own records, named after its position,
      and leaves the earlier records as they were. */
  lemma RunOcrOnSlicesAppend(slices: seq<OcrSlice>, s: OcrSlice)
    ensures RunOcrOnSlices(slices + [s])
            == RunOcrOnSlices(slices) + SliceRecords(s.lines, TopOffsetOf(s), SliceName(|slices|))
  {
    assert (slices + [s])[..|slices|] == slices;
  }

  /** Every record has passed the confidence filter and has no translation. */
  lemma {:induction false} RunOcrOnSlicesFresh(slices: seq<OcrSlice>)
    ensures forall k :: 0 <= k < |RunOcrOnSlices(slices)| ==>
              RunOcrOnSlices(slices)[k].confidence >= MinConfidence && RunOcrOnSlices(slices)[k].translatedText == ""
  {
    if |slices| > 0 {
      var n := |slices| - 1;
      RunOcrOnSlicesFresh(slices[..n]);
      var s := slices[n];
      var before := RunOcrOnSlices(slices[..n]);
      var tail := SliceRecords(s.lines, TopOffsetOf(s), SliceName(n));
      var r := RunOcrOnSlices(slices);
      assert r == before + tail;
      SliceRecordsKeepConfident(s.lines, TopOffsetOf(s), SliceName(n));
      var ks := ConfidentIndices(s.lines);
      forall k | 0 <= k < |r|
        ensures r[k].confidence >= MinConfidence && r[k].translatedText == ""
      {
        if k >= |before| {
          var m := k - |before|;
          assert r[k] == tail[m];
          assert RecordsConfident(s.lines, TopOffsetOf(s), SliceName(n));
          assert tail[m] == MakeRecord(s.lines[ks[m]], TopOffsetOf(s), SliceName(n));
          assert ks[m] in ks;
          assert s.lines[ks[m]].confidence >= MinConfidence;
        } else {
          assert r[k] == before[k];
          assert before[k].confidence >= MinConfidence;
        }
      }
    }
  }

  // ---------------------------------------------------------------------
  // merge_boxes_and_text

  /** The upright rectangle around both boxes, corners in TL, TR, BR, BL
      order, and the two texts joined by one space. */
  function MergeBoxesAndText(box1: Quad, text1: string, box2: Quad, text2: string): (r: (Quad, string))
    ensures Within(BBoxOf(box1), BBoxOf(r.0)) && Within(BBoxOf(box2), BBoxOf(r.0))
    ensures forall c: BBox :: Within(BBoxOf(box1), c) && Within(BBoxOf(box2), c) ==> Within(BBoxOf(r.0), c)
    ensures r.0.tl.y == r.0.tr.y && r.0.br.y == r.0.bl.y && r.0.tl.x == r.0.bl.x && r.0.tr.x == r.0.br.x
    ensures r.0.tl.x <= r.0.tr.x && r.0.tl.y <= r.0.bl.y
    ensures r.1 == text1 + " " + text2
  {
    (UnionRect(BBoxOf(box1), BBoxOf(box2)), text1 + " " + text2)
  }

  // ---------------------------------------------------------------------
  // deduplicate_results

  /** Python's `a in b or b in a`. */
  predicate SameText(a: string, b: string) { IsSubstring(a, b) || IsSubstring(b, a) }

  /** `cur` repeats `kept`: their vertical IoU is strictly above the
      threshold and one text contains the other. */
  predicate DuplicateOf(cur: TextRecord, kept: TextRecord, threshold: real)
  {
    IouVertical(CoordsOf(cur), CoordsOf(kept)) > threshold && SameText(cur.originalText, kept.originalText)
  }

  /** The inner loop: scan the kept records from `i`, stopping at the first
      duplicate. */
  function HasDuplicateFrom(kept: seq<TextRecord>, cur: TextRecord, threshold: real, i: nat): bool
    requires i <= |kept|
    decreases |kept| - i
  {
    if i == |kept| then false
    else if DuplicateOf(cur, kept[i], threshold) then true
    else HasDuplicateFrom(kept, cur, threshold, i + 1)
  }

  lemma {:induction false} HasDuplicateFromSpec(kept: seq<TextRecord>, cur: TextRecord, threshold: real, i: nat)
    requires i <= |kept|
    ensures HasDuplicateFrom(kept, cur, threshold, i)
            <==> exists j :: i <= j < |kept| && DuplicateOf(cur, kept[j], threshold)
    decreases |kept| - i
  {
    if i < |kept| {
      HasDuplicateFromSpec(kept, cur, threshold, i + 1);
    }
  }

  /** One iteration of the outer loop. */
  function DedupStep(kept: seq<TextRecord>, cur: TextRecord, threshold: real): seq<TextRecord>
  {
    if HasDuplicateFrom(kept, cur, threshold, 0) then kept else kept + [cur]
  }

  /** `deduplicate_results`. */
  function Deduplicate(results: seq<TextRecord>, threshold: real): (r: seq<TextRecord>)
    ensures |r| <= |results|
    ensures |results| == 0 ==> r == []
  {
    if |results| == 0 then []
    else
      var n := |results| - 1;
      DedupStep(Deduplicate(results[..n], threshold), results[n], threshold)
  }

  /** The last record is dropped iff an already kept record repeats it;
      otherwise it is appended, and the kept records never change. */
  lemma DeduplicateDrops(results: seq<TextRecord>, threshold: real)
    requires |results| > 0
    ensures var n := |results| - 1;
            var before := Deduplicate(results[..n], threshold);
            var r := Deduplicate(results, threshold);
            (r == before <==> exists j :: 0 <= j < |before| && DuplicateOf(results[n], before[j], threshold))
            && (r != before ==> r == before + [results[n]])
  {
    var n := |results| - 1;
    var before := Deduplicate(results[..n], threshold);
    HasDuplicateFromSpec(before, results[n], threshold, 0);
    if !HasDuplicateFrom(before, results[n], threshold, 0) {
      assert |before + [results[n]]| != |before|;
    }
  }

  /** For each kept record, the index of the input it is. */
  function KeptPositions(results: seq<TextRecord>, threshold: real): seq<nat>
  {
    if |results| == 0 then []
    else
      var n := |results| - 1;
      var before := Deduplicate(results[..n], threshold);
      if HasDuplicateFrom(before, results[n], threshold, 0)
      then KeptPositions(results[..n], threshold)
      else KeptPositions(results[..n], threshold) + [n]
  }

  /** Record `k` of `r` is `lines[ps[k]]`, unmodified, and the positions
      increase. */
  predicate SubsequenceAt(r: seq<TextRecord>, ps: seq<nat>, lines: seq<TextRecord>)
  {
    |ps| == |r| && StrictlyIncreasing(ps)
    && forall k :: 0 <= k < |ps| ==> ps[k] < |lines| && r[k] == lines[ps[k]]
  }

  /** The output is an order-preserving subsequence of the input. */
  predicate Subsequence(results: seq<TextRecord>, threshold: real)
  {
    SubsequenceAt(Deduplicate(results, threshold), KeptPositions(results, threshold), results)
  }

  lemma {:induction false} DeduplicateSubsequence(results: seq<TextRecord>, threshold: real)
    ensures Subsequence(results, threshold)
  {
    if |results| > 0 {
      DeduplicateSubsequence(results[..|results| - 1], threshold);
      SubsequenceStep(results, threshold);
    }
  }

  lemma SubsequenceStep(results: seq<TextRecord>, threshold: real)
    requires |results| > 0 && Subsequence(results[..|results| - 1], threshold)
    ensures Subsequence(results, threshold)
  {
    var n := |results| - 1;
    var prefix := results[..n];
    var before := Deduplicate(prefix, threshold);
    var psBefore := KeptPositions(prefix, threshold);
    SubsequenceWiden(before, psBefore, prefix, results);
    if !HasDuplicateFrom(before, results[n], threshold, 0) {
      SubsequenceAppend(before, psBefore, results, n);
    }
  }

  lemma SubsequenceWiden(r: seq<TextRecord>, ps: seq<nat>, prefix: seq<TextRecord>, lines: seq<TextRecord>)
    requires SubsequenceAt(r, ps, prefix) && prefix <= lines
    ensures SubsequenceAt(r, ps, lines)
    ensures forall k :: 0 <= k < |ps| ==> ps[k] < |prefix|
  {
    forall k | 0 <= k < |ps|
      ensures ps[k] < |lines| && r[k] == lines[ps[k]]
    {
      assert prefix[ps[k]] == lines[ps[k]];
    }
  }

  lemma SubsequenceAppend(r: seq<TextRecord>, ps: seq<nat>, lines: seq<TextRecord>, n: nat)
    requires SubsequenceAt(r, ps, lines) && n < |lines|
    requires forall k :: 0 <= k < |ps| ==> ps[k] < n
    ensures SubsequenceAt(r + [lines[n]], ps + [n], lines)
  {
    IncreasingSnoc(ps, n);
    var r2, ps2 := r + [lines[n]], ps + [n];
    forall k | 0 <= k < |ps2|
      ensures ps2[k] < |lines| && r2[k] == lines[ps2[k]]
    {
      if k < |ps| {
        assert r2[k] == r[k] && ps2[k] == ps[k];
      }
    }
  }

  /** No kept record repeats an earlier kept record. */
  predicate DuplicateFree(kept: seq<TextRecord>, threshold: real)
  {
    forall i, j :: 0 <= i < j < |kept| ==> !DuplicateOf(kept[j], kept[i], threshold)
  }

  lemma {:induction false} DeduplicateIsDuplicateFree(results: seq<TextRecord>, threshold: real)
    ensures DuplicateFree(Deduplicate(results, threshold), threshold)
  {
    if |results| > 0 {
      DeduplicateIsDuplicateFree(results[..|results| - 1], threshold);
      DuplicateFreeStep(results, threshold);
    }
  }

  lemma DuplicateFreeStep(results: seq<TextRecord>, threshold: real)
    requires |results| > 0 && DuplicateFree(Deduplicate(results[..|results| - 1], threshold), threshold)
    ensures DuplicateFree(Deduplicate(results, threshold), threshold)
  {
    var n := |results| - 1;
    var before := Deduplicate(results[..n], threshold);
    if !HasDuplicateFrom(before, results[n], threshold, 0) {
      HasDuplicateFromSpec(before, results[n], threshold, 0);
      DuplicateFreeSnoc(before, results[n], threshold);
    }
  }

  /** Appending a record that repeats none of the kept ones keeps the kept
      records free of repeats. */
  lemma DuplicateFreeSnoc(kept: seq<TextRecord>, x: TextRecord, threshold: real)
    requires DuplicateFree(kept, threshold)
    requires forall j :: 0 <= j < |kept| ==> !DuplicateOf(x, kept[j], threshold)
    ensures DuplicateFree(kept + [x], threshold)
  {
    var k2 := kept + [x];
    forall i, j | 0 <= i < j < |k2|
      ensures !DuplicateOf(k2[j], k2[i], threshold)
    {
      assert k2[i] == kept[i];
      if j < |kept| {
        assert k2[j] == kept[j];
      }
    }
  }

  /** Record `x` is in `kept` or repeats a record of `kept`. */
  predicate AccountedFor(x: TextRecord, kept: seq<TextRecord>, threshold: real)
  {
    exists j :: 0 <= j < |kept| && (kept[j] == x || DuplicateOf(x, kept[j], threshold))
  }

  /** Every input survives or is repeated by some output record. */
  predicate Accounted(results: seq<TextRecord>, threshold: real)
  {
    var r := Deduplicate(results, threshold);
    forall i :: 0 <= i < |results| ==> AccountedFor(results[i], r, threshold)
  }

  lemma {:induction false} DeduplicateAccountsForAll(results: seq<TextRecord>, threshold: real)
    ensures Accounted(results, threshold)
  {
    if |results| > 0 {
      DeduplicateAccountsForAll(results[..|results| - 1], threshold);
      AccountedStep(results, threshold);
    }
  }

  lemma AccountedStep(results: seq<TextRecord>, threshold: real)
    requires |results| > 0 && Accounted(results[..|results| - 1], threshold)
    ensures Accounted(results, threshold)
  {
    var n := |results| - 1;
    var prefix := results[..n];
    DeduplicateDrops(results, threshold);
    var before := Deduplicate(prefix, threshold);
    var r := Deduplicate(results, threshold);
    forall i | 0 <= i < |results|
      ensures AccountedFor(results[i], r, threshold)
    {
      if i < n {
        assert results[i] == prefix[i];
        AccountedForGrows(results[i], before, r, threshold);
      } else if r == before {
      } else {
        assert r[|before|] == results[n];
      }
    }
  }

  lemma AccountedForGrows(x: TextRecord, kept: seq<TextRecord>, more: seq<TextRecord>, threshold: real)
    requires AccountedFor(x, kept, threshold) && kept <= more
    ensures AccountedFor(x, more, threshold)
  {
    var j :| 0 <= j < |kept| && (kept[j] == x || DuplicateOf(x, kept[j], threshold));
    assert more[j] == kept[j];
  }

  // ---------------------------------------------------------------------
  // merge_nearby_boxes

  /** The fold test: the vertical gap from the group's bottom to the next
      line's top is below `yThreshold`, and the horizontal extents overlap
      or leave a gap below `xThreshold`. */
  predicate Near(group: TextRecord, next: TextRecord, yThreshold: real, xThreshold: real)
  {
    var e, c := CoordsOf(group), CoordsOf(next);
    c.minY - e.maxY < yThreshold && MaxReal(e.minX, c.minX) < MinReal(e.maxX, c.maxX) + xThreshold
  }

  /** Only the box and the text of the group change; its `center_y` stays
      that of the line that opened it. */
  function FoldInto(group: TextRecord, next: TextRecord): TextRecord
  {
    var m := MergeBoxesAndText(group.box, group.originalText, next.box, next.originalText);
    group.(box := m.0, originalText := m.1)
  }

  /** The closed groups and the open group after sweeping a non-empty
      prefix. */
  function NearbyGroups(results: seq<TextRecord>, yThreshold: real, xThreshold: real): (g: (seq<TextRecord>, TextRecord))
    requires |results| > 0
    ensures |g.0| < |results|
  {
    if |results| == 1 then ([], results[0])
    else
      var n := |results| - 1;
      var (closed, current) := NearbyGroups(results[..n], yThreshold, xThreshold);
      if Near(current, results[n], yThreshold, xThreshold) then (closed, FoldInto(current, results[n]))
      else (closed + [current], results[n])
  }

  /** `merge_nearby_boxes`: the closed groups followed by the last open one. */
  function MergeNearby(results: seq<TextRecord>, yThreshold: real, xThreshold: real): (r: seq<TextRecord>)
    ensures |results| == 0 <==> |r| == 0
    ensures |results| > 0 ==> 1 <= |r| <= |results|
  {
    if |results| == 0 then []
    else
      var (closed, current) := NearbyGroups(results, yThreshold, xThreshold);
      closed + [current]
  }

  /** One more line either folds into the last group, when it is near, or
      opens a new group after it; the earlier groups never change. */
  lemma MergeNearbyStep(results: seq<TextRecord>, next: TextRecord, yThreshold: real, xThreshold: real)
    requires |results| > 0
    ensures var before := MergeNearby(results, yThreshold, xThreshold);
            var n := |before| - 1;
            var after := MergeNearby(results + [next], yThreshold, xThreshold);
            (Near(before[n], next, yThreshold, xThreshold) ==> after == before[..n] + [FoldInto(before[n], next)])
            && (!Near(before[n], next, yThreshold, xThreshold) ==> after == before + [next])
  {
    assert (results + [next])[..|results|] == results;
    var before := MergeNearby(results, yThreshold, xThreshold);
    assert before[..|before| - 1] == NearbyGroups(results, yThreshold, xThreshold).0;
  }

  function Texts(rs: seq<TextRecord>): (ts: seq<string>)
    ensures |ts| == |rs| && forall i :: 0 <= i < |rs| ==> ts[i] == rs[i].originalText
  {
    seq(|rs|, i requires 0 <= i < |rs| => rs[i].originalText)
  }

  /** Grouping loses and reorders no text: the groups' texts joined with
      single spaces are the lines' texts joined with single spaces. */
  lemma {:induction false} MergeNearbyKeepsText(results: seq<TextRecord>, yThreshold: real, xThreshold: real)
    ensures JoinSpace(Texts(MergeNearby(results, yThreshold, xThreshold))) == JoinSpace(Texts(results))
  {
    if |results| > 1 {
      MergeNearbyKeepsText(results[..|results| - 1], yThreshold, xThreshold);
      KeepsTextStep(results, yThreshold, xThreshold);
    } else if |results| == 1 {
      assert MergeNearby(results, yThreshold, xThreshold) == results;
    }
  }

  lemma KeepsTextStep(results: seq<TextRecord>, yThreshold: real, xThreshold: real)
    requires |results| > 1
    requires var init := results[..|results| - 1];
             JoinSpace(Texts(MergeNearby(init, yThreshold, xThreshold))) == JoinSpace(Texts(init))
    ensures JoinSpace(Texts(MergeNearby(results, yThreshold, xThreshold))) == JoinSpace(Texts(results))
  {
    var n := |results| - 1;
    var ts := Texts(results);
    assert ts[..n] == Texts(results[..n]);
    assert JoinSpace(ts) == JoinSpace(ts[..n]) + " " + ts[n];
    KeepsTextJoin(results, yThreshold, xThreshold);
  }

  /** Whether the last line folds or opens a group, the joined text grows
      by a space and the line's text. */
  lemma KeepsTextJoin(results: seq<TextRecord>, yThreshold: real, xThreshold: real)
    requires |results| > 1
    ensures var n := |results| - 1;
            JoinSpace(Texts(MergeNearby(results, yThreshold, xThreshold)))
            == JoinSpace(Texts(MergeNearby(results[..n], yThreshold, xThreshold))) + " " + results[n].originalText
  {
    var n := |results| - 1;
    var init, next := results[..n], results[n];
    assert init + [next] == results;
    MergeNearbyStep(init, next, yThreshold, xThreshold);
    var before := MergeNearby(init, yThreshold, xThreshold);
    var after := MergeNearby(results, yThreshold, xThreshold);
    var m := |before| - 1;
    var ts := Texts(before);
    if Near(before[m], next, yThreshold, xThreshold) {
      assert Texts(after) == ts[..m] + [ts[m] + " " + next.originalText];
      assert ts == ts[..m] + [ts[m]];
      JoinSpaceExtendLast(ts[..m], ts[m], next.originalText);
    } else {
      assert Texts(after) == ts + [next.originalText];
      JoinSpaceSnoc(ts, next.originalText);
    }
  }

  /** Folding keeps the group's identity and grows its box and its text. */
  lemma FoldIntoGrows(group: TextRecord, next: TextRecord)
    ensures var g := FoldInto(group, next);
            Within(CoordsOf(group), CoordsOf(g)) && Within(CoordsOf(next), CoordsOf(g))
            && group.originalText <= g.originalText
            && g.confidence == group.confidence && g.centerY == group.centerY
            && g.translatedText == group.translatedText && g.imageName == group.imageName
  {
  }

  /** Group `group` was opened by line `opener`: it keeps that line's
      confidence, centre, translation and slice name, holds its box, and
      its text starts with that line's text. */
  predicate GroupOpenedBy(group: TextRecord, opener: TextRecord)
  {
    group.confidence == opener.confidence && group.centerY == opener.centerY
    && group.translatedText == opener.translatedText && group.imageName == opener.imageName
    && Within(CoordsOf(opener), CoordsOf(group)) && opener.originalText <= group.originalText
  }

  /** For each group, the index of the line that opened it. */
  function GroupStarts(results: seq<TextRecord>, yThreshold: real, xThreshold: real): seq<nat>
  {
    if |results| <= 1 then seq(|results|, _ => 0)
    else
      var n := |results| - 1;
      var before := MergeNearby(results[..n], yThreshold, xThreshold);
      if Near(before[|before| - 1], results[n], yThreshold, xThreshold)
      then GroupStarts(results[..n], yThreshold, xThreshold)
      else GroupStarts(results[..n], yThreshold, xThreshold) + [n]
  }

  /** Group `k` was opened by line `st[k]`, the openers increase, and the
      first line opens the first group. */
  predicate OrderedOpeners(groups: seq<TextRecord>, st: seq<nat>, lines: seq<TextRecord>)
  {
    |st| == |groups| && StrictlyIncreasing(st) && (|st| > 0 ==> st[0] == 0)
    && forall k :: 0 <= k < |st| ==> st[k] < |lines| && GroupOpenedBy(groups[k], lines[st[k]])
  }

  predicate GroupsInOrder(results: seq<TextRecord>, yThreshold: real, xThreshold: real)
  {
    OrderedOpeners(MergeNearby(results, yThreshold, xThreshold), GroupStarts(results, yThreshold, xThreshold), results)
  }

  /** The first line opens the first group, and the groups come out in the
      order of the lines that opened them. */
  lemma {:induction false} MergeNearbyKeepsOrder(results: seq<TextRecord>, yThreshold: real, xThreshold: real)
    ensures GroupsInOrder(results, yThreshold, xThreshold)
  {
    if |results| == 1 {
      assert MergeNearby(results, yThreshold, xThreshold) == results;
    } else if |results| > 1 {
      MergeNearbyKeepsOrder(results[..|results| - 1], yThreshold, xThreshold);
      OrderStep(results, yThreshold, xThreshold);
    }
  }

  lemma OrderStep(results: seq<TextRecord>, yThreshold: real, xThreshold: real)
    requires |results| > 1 && GroupsInOrder(results[..|results| - 1], yThreshold, xThreshold)
    ensures GroupsInOrder(results, yThreshold, xThreshold)
  {
    var n := |results| - 1;
    var init := results[..n];
    SweepStep(results, yThreshold, xThreshold);
    var before := MergeNearby(init, yThreshold, xThreshold);
    OpenersStep(before, GroupStarts(init, yThreshold, xThreshold),
                MergeNearby(results, yThreshold, xThreshold), GroupStarts(results, yThreshold, xThreshold),
                init, results, Near(before[|before| - 1], results[n], yThreshold, xThreshold));
  }

  /** The sweep's last step, on the groups and on their openers. */
  lemma SweepStep(results: seq<TextRecord>, yThreshold: real, xThreshold: real)
    requires |results| > 1
    ensures var n := |results| - 1;
            var before := MergeNearby(results[..n], yThreshold, xThreshold);
            var m := |before| - 1;
            var out := MergeNearby(results, yThreshold, xThreshold);
            var st := GroupStarts(results, yThreshold, xThreshold);
            var stBefore := GroupStarts(results[..n], yThreshold, xThreshold);
            |before| > 0 && results[..n] == results[..|results[..n]|]
            && (Near(before[m], results[n], yThreshold, xThreshold) ==>
                  out == before[..m] + [FoldInto(before[m], results[n])] && st == stBefore)
            && (!Near(before[m], results[n], yThreshold, xThreshold) ==>
                  out == before + [results[n]] && st == stBefore + [n])
  {
    var n := |results| - 1;
    assert results[..n] + [results[n]] == results;
    MergeNearbyStep(results[..n], results[n], yThreshold, xThreshold);
  }

  /** One line more: the groups and their openers change as the sweep
      dictates, and the order is kept. */
  lemma OpenersStep(before: seq<TextRecord>, stBefore: seq<nat>, out: seq<TextRecord>, st: seq<nat>,
                    init: seq<TextRecord>, results: seq<TextRecord>, near: bool)
    requires OrderedOpeners(before, stBefore, init) && |before| > 0
    requires |results| == |init| + 1 && init == results[..|init|]
    requires near ==> out == before[..|before| - 1] + [FoldInto(before[|before| - 1], results[|init|])] && st == stBefore
    requires !near ==> out == before + [results[|init|]] && st == stBefore + [|init|]
    ensures OrderedOpeners(out, st, results)
  {
    OpenersWiden(before, stBefore, init, results);
    if near {
      OpenersFold(before, stBefore, results, results[|init|]);
    } else {
      OpenersOpen(before, stBefore, results, |init|);
    }
  }

  lemma OpenersWiden(groups: seq<TextRecord>, st: seq<nat>, init: seq<TextRecord>, lines: seq<TextRecord>)
    requires OrderedOpeners(groups, st, init) && init <= lines
    ensures OrderedOpeners(groups, st, lines)
    ensures forall k :: 0 <= k < |st| ==> st[k] < |init|
  {
    forall k | 0 <= k < |st|
      ensures st[k] < |lines| && GroupOpenedBy(groups[k], lines[st[k]])
    {
      assert init[st[k]] == lines[st[k]];
    }
  }

  lemma OpenersFold(groups: seq<TextRecord>, st: seq<nat>, lines: seq<TextRecord>, next: TextRecord)
    requires OrderedOpeners(groups, st, lines) && |groups| > 0
    ensures var m := |groups| - 1;
            OrderedOpeners(groups[..m] + [FoldInto(groups[m], next)], st, lines)
  {
    var m := |groups| - 1;
    var g := groups[..m] + [FoldInto(groups[m], next)];
    forall k | 0 <= k < |st|
      ensures GroupOpenedBy(g[k], lines[st[k]])
    {
      if k == m {
        FoldIntoGrows(groups[m], next);
        WithinTransitive(CoordsOf(lines[st[k]]), CoordsOf(groups[m]), CoordsOf(g[m]));
      } else {
        assert g[k] == groups[k];
      }
    }
  }

  lemma OpenersOpen(groups: seq<TextRecord>, st: seq<nat>, lines: seq<TextRecord>, n: nat)
    requires OrderedOpeners(groups, st, lines) && |groups| > 0 && n < |lines|
    requires forall k :: 0 <= k < |st| ==> st[k] < n
    ensures OrderedOpeners(groups + [lines[n]], st + [n], lines)
  {
    IncreasingSnoc(st, n);
    var g, st2 := groups + [lines[n]], st + [n];
    forall k | 0 <= k < |st2|
      ensures st2[k] < |lines| && GroupOpenedBy(g[k], lines[st2[k]])
    {
      if k < |st| {
        assert g[k] == groups[k] && st2[k] == st[k];
      }
    }
  }

  /** Some group's box holds `b`. */
  predicate InSomeGroup(b: BBox, groups: seq<TextRecord>)
  {
    exists k :: 0 <= k < |groups| && Within(b, CoordsOf(groups[k]))
  }

  /** Every line's box lies inside the box of some group. */
  lemma {:induction false} MergeNearbyCovers(results: seq<TextRecord>, yThreshold: real, xThreshold: real)
    ensures forall i :: 0 <= i < |results| ==> InSomeGroup(CoordsOf(results[i]), MergeNearby(results, yThreshold, xThreshold))
  {
    if |results| == 1 {
      assert MergeNearby(results, yThreshold, xThreshold) == results;
      assert Within(CoordsOf(results[0]), CoordsOf(results[0]));
    } else if |results| > 1 {
      var n := |results| - 1;
      var init := results[..n];
      MergeNearbyCovers(init, yThreshold, xThreshold);
      forall i | 0 <= i < |results|
        ensures InSomeGroup(CoordsOf(results[i]), MergeNearby(results, yThreshold, xThreshold))
      {
        CoversStep(results, i, yThreshold, xThreshold);
      }
    }
  }

  lemma CoversStep(results: seq<TextRecord>, i: nat, yThreshold: real, xThreshold: real)
    requires |results| > 1 && i < |results|
    requires var init := results[..|results| - 1];
             forall j :: 0 <= j < |init| ==> InSomeGroup(CoordsOf(init[j]), MergeNearby(init, yThreshold, xThreshold))
    ensures InSomeGroup(CoordsOf(results[i]), MergeNearby(results, yThreshold, xThreshold))
  {
    var n := |results| - 1;
    var init := results[..n];
    assert init + [results[n]] == results;
    MergeNearbyStep(init, results[n], yThreshold, xThreshold);
    var before := MergeNearby(init, yThreshold, xThreshold);
    var out := MergeNearby(results, yThreshold, xThreshold);
    var m := |before| - 1;
    var b := CoordsOf(results[i]);
    if Near(before[m], results[n], yThreshold, xThreshold) {
      FoldIntoGrows(before[m], results[n]);
      assert out[m] == FoldInto(before[m], results[n]);
      if i < n {
        assert init[i] == results[i];
        var k :| 0 <= k < |before| && Within(b, CoordsOf(before[k]));
        if k == m {
          WithinTransitive(b, CoordsOf(before[m]), CoordsOf(out[m]));
        } else {
          assert out[k] == before[k];
        }
      }
    } else {
      if i < n {
        assert init[i] == results[i];
        var k :| 0 <= k < |before| && Within(b, CoordsOf(before[k]));
        assert out[k] == before[k];
      } else {
        assert out[m + 1] == results[n];
      }
    }
  }
}

# simple-comic-translator, modelled in Dafny

simple-comic-translator translates comic and manga pages. It runs in stages:

1. It cuts a tall page into tiles or horizontal bands.
2. It runs a text-area detector on each piece and maps the boxes back to page coordinates.
3. It merges overlapping detections into text blocks.
4. It runs OCR on the blocks, then drops repeated lines and joins nearby lines.
5. It sends the texts to a language model and reads the numbered translations back from the reply.
6. It keeps a per-series glossary of terms up to date.

This project models the deterministic logic between the model calls, one module per concern:

| module | what it models |
|---|---|
| `Common`, `Text`, `Boxes`, `Items` | Shared vocabulary: `Option`/`Result`, Python's `int()` on floats (truncation), `str()`/`zfill`/`strip`, the corner-list box and its bounding rectangle (`get_bbox_coords`). |
| `Iou` | `calculate_iou_2d` and `calculate_iou_vertical`. |
| `Detection` | The filter-and-remap loop of `detect_text_areas` and `merge_overlapping_boxes`. |
| `Ocr` | The record building of `run_ocr_on_slices`, plus `deduplicate_results`, `merge_boxes_and_text` and `merge_nearby_boxes`. |
| `Tiling` | `slice_image_in_tiles`, in both its OpenCV and its Pillow form. |
| `Slicing` | `slice_image_horizontally`. |
| `Segmenter` | The four versions of `split_image_safely`. |
| `ImageBoxes` | The crop clamp of `crop_out_box` and `create_inpainting_mask`. |
| `TagProtocol` | The `<\|n\|>`-tagged input and reply of the LiteLLM, OpenAI and Google AI translators. These three share one tag code, so one module models them all. |
| `Enumerated` | The numbered-list input and the fill-with-fallback step of the Gemini translator, current and archived. |
| `FolderName` | `subtract_one` and the `re.sub` that names the previous chapter's folder. |
| `Glossary` | `load_glossary` and `update_glossary`. |

Modelling choices:

- Pixels are not modelled. Only offsets, boxes and masks are.
- Coordinates are mathematical reals.
- Every Python `int(...)` of a float, and the `np.int32` cast of a remapped corner, is written out as truncation toward zero (`Common.Trunc`).
- Results are immutable values. Where the source mutates a list of dicts in place, the model returns the new list.
- An exception is modelled as an `Err`, or as the `Option` half of a result.

Three facts about the code that are easy to get wrong, and that the model follows:

- **Merging is not idempotent.** One pass of `merge_overlapping_boxes` can leave two blocks that a second pass joins, because a block that grows by absorbing a later box is never compared again with the other blocks. `Detection.MergeOverlappingNotIdempotent` exhibits such an input.
- **The cut lands on the zone edge.** `split_image_safely` tests a row against a forbidden zone strictly (`y_min < y < y_max`), so a zone's own edge is a safe cut. A box spanning y = 380..420 with `max_height` 400 gives the zone (360, 440), and the cut lands at y = 360, not one row above it (`Segmenter.SplitLandsOnZoneEdge`).
- **Vertical IoU divides by the larger height.** The comment in `calculate_iou_vertical` speaks of the smaller height. The code divides by the larger one (`max(h1, h2)`), which is what `Iou.IouVertical` models.

## Model

| member | source | states |
|---|---|---|
| Boxes.BBoxOf | app/core/detection.py:17-23 | The rectangle returned holds all four corners and is well formed. Its centre lies halfway between its top and bottom. |
| Boxes.BBoxOfTight | app/core/ocr.py:7-13 | Each edge of the rectangle is attained by some corner, so no smaller rectangle holds the four corners. |
| Boxes.UnionRect | app/core/ocr.py:158-195 | The merged four-corner box is upright. Its rectangle contains both inputs and lies inside any rectangle that contains both. |
| Common.Trunc | app/core/detection.py:144 | `int()` of a float rounds toward zero: it never moves a non-negative value up or a negative value down, by less than 1, and leaves integers alone. |
| Iou.Iou2DRange | app/core/detection.py:188-217 | For well-formed boxes the 2-D IoU lies in [0, 1]. It is 0 without positive overlap on an axis, or when the union area is 0. It is positive when the boxes overlap on both axes, and 1 for a box of positive area with itself. |
| Iou.Iou2DSymmetric | app/core/detection.py:188-217 | The 2-D IoU does not depend on the order of its arguments. |
| Iou.InterWithinAreas | app/core/detection.py:203-212 | The intersection is no larger than either box, so the union is at least each area. |
| Iou.IouVertical | app/core/ocr.py:95-115 | The vertical IoU is 0 without positive vertical overlap, positive with it, and never above 1, because the denominator is the larger height. |
| Iou.IouVerticalSymmetric | app/core/ocr.py:95-115 | The vertical IoU does not depend on the order of its arguments. |
| Detection.MakeRegion | app/core/detection.py:148-157 | A kept row becomes a record with empty texts, zero text confidence, the detector score as confidence, and the image name and number passed in. |
| Detection.MakeRegionUpright | app/core/detection.py:134-149 | The record's box is the upright rectangle in TL, TR, BR, BL order. Its edges are the remapped model edges, cast to integers. |
| Detection.MakeRegionOrdered | app/core/detection.py:134-149 | With non-negative scales, a well-formed model box stays well formed in page space. |
| Detection.MakeRegionCenter | app/core/detection.py:146 | The recorded centre is the midpoint of the remapped top and bottom edges, taken before the cast to integers. |
| Detection.RemapMonotone | app/core/detection.py:144 | Remapping with non-negative scales keeps coordinates in order, before and after the cast. |
| Detection.RemapWholeImageIdentity | app/core/detection.py:100-104 | On the untiled path (offset 0, scale 1), an integral model box comes back unchanged. |
| Detection.RemapTruncates | app/core/detection.py:144 | Remapping truncates rather than rounds: on an unscaled tile a non-negative coordinate lands less than one pixel before its exact position plus the offset, never after it. |
| Detection.KeptIndices | app/core/detection.py:126-131 | The kept rows are exactly those whose score reaches the threshold and whose class is not 0, listed in increasing order. |
| Detection.FilterAndRemapFails | app/core/detection.py:123-163 | The loop raises iff some kept row has a class missing from the class table. It then fails with the first such row's class: rows dropped earlier never raise. |
| Detection.FilterAndRemapKeeps | app/core/detection.py:123-163 | On success the loop returns one record per kept row, in input order, each built by `MakeRegion`. |
| Detection.FirstOverlapFromSpec | app/core/detection.py:232-241 | The inner search finds the first block whose IoU with the detection is strictly above the threshold. It reports none only when no block qualifies. |
| Detection.Absorb | app/core/detection.py:235-239 | The absorbing block becomes the least rectangle holding both boxes, with its centre recomputed. Its text becomes the two texts joined by a space. Its other fields are kept. |
| Detection.AbsorbCoords | app/core/detection.py:236-238 | The merged box is the component-wise min/max union of the two boxes. |
| Detection.MergeStepFirstOverlap | app/core/detection.py:230-243 | A detection opens a new block at the end iff no block overlaps it enough. Otherwise it merges into the first such block, and no other block changes. |
| Detection.MergeStepGrows | app/core/detection.py:230-243 | A merge step only grows blocks, never changes their other fields, and leaves the detection inside some block. |
| Detection.MergeOverlapping | app/core/detection.py:220-245 | There are never more blocks than detections. There are no blocks iff there are no detections. |
| Detection.MergeCoversInputs | app/core/detection.py:220-245 | Every detection's box lies inside some output block. |
| Detection.MergeKeepsArrivalOrder | app/core/detection.py:220-245 | Each output block was opened by one detection: it keeps that detection's fields and box, and its text starts with that detection's text. The openers appear in arrival order. |
| Detection.MergeThree | app/core/detection.py:220-245 | For A, C, B where only B overlaps A, the result is [A grown by B, C]. |
| Detection.MergeOverlappingNotIdempotent | app/core/detection.py:220-245 | Merging the merge's own output can merge further: with threshold 0, A, C, B gives two blocks, and a second pass gives one. |
| Ocr.SliceNameSpellsIndex | app/core/ocr.py:49 | `image_{i:02d}` spells the slice index in decimal with at least two digits. |
| Ocr.SliceNameInjective | app/core/ocr.py:49 | Distinct slices get distinct names. |
| Ocr.MakeRecord | app/core/ocr.py:78-87 | A record carries the line's text and confidence, an empty translation and the slice name. Its centre is that of its own shifted box. |
| Ocr.MakeRecordShiftsY | app/core/ocr.py:50-55 | Only the vertical coordinates move, by the slice's top offset (0 for a bare image). The bounds and the centre move with them. |
| Ocr.ConfidentIndices | app/core/ocr.py:67-69 | The kept lines are exactly those with confidence at least 0.6, listed in increasing order. |
| Ocr.SliceRecordsKeepConfident | app/core/ocr.py:62-87 | A slice's records are its confident lines, in order, each built by `MakeRecord`. |
| Ocr.RunOcrOnSlicesAppend | app/core/ocr.py:48-87 | Each further slice appends its own records, named after its position, and leaves the earlier records unchanged. |
| Ocr.RunOcrOnSlicesFresh | app/core/ocr.py:16-92 | Every record returned has confidence at least 0.6 and no translation. |
| Ocr.MergeBoxesAndText | app/core/ocr.py:158-195 | The merged box is the least upright rectangle holding both boxes, in TL, TR, BR, BL order. The text is the two texts joined by one space. |
| Ocr.HasDuplicateFromSpec | app/core/ocr.py:129-144 | The inner scan reports a duplicate iff some kept record has vertical IoU above the threshold with the current one and one text contains the other. |
| Ocr.DeduplicateDrops | app/core/ocr.py:129-149 | The next record is dropped iff a kept record repeats it. Otherwise it is appended, and the kept records never change. |
| Ocr.DeduplicateSubsequence | app/core/ocr.py:118-155 | The output is an order-preserving subsequence of the input, with records unmodified. |
| Ocr.DeduplicateIsDuplicateFree | app/core/ocr.py:118-155 | No output record repeats an earlier output record. |
| Ocr.DeduplicateAccountsForAll | app/core/ocr.py:118-155 | Every input record is in the output or is repeated by an output record. |
| Ocr.MergeNearby | app/core/ocr.py:198-246 | There is at least one group and at most one per line for a non-empty input, and none for an empty one. |
| Ocr.MergeNearbyStep | app/core/ocr.py:209-239 | A further line folds into the last group when near it, and otherwise opens a new group. Earlier groups never change. |
| Ocr.MergeNearbyKeepsText | app/core/ocr.py:198-246 | Grouping loses and reorders no text: the groups' texts joined by spaces equal the lines' texts joined by spaces. |
| Ocr.FoldIntoGrows | app/core/ocr.py:223-232 | Folding grows the group's box and text. It keeps the group's confidence, centre and slice name. |
| Ocr.MergeNearbyKeepsOrder | app/core/ocr.py:198-246 | The first line opens the first group. The groups come out in the order of the lines that opened them. |
| Ocr.MergeNearbyCovers | app/core/ocr.py:198-246 | Every line's box lies inside some group's box. |
| Tiling.Stride | app/core/image_utils_cv2.py:71-74 | For a positive tile the step is positive, and with a non-negative overlap it is no larger than the tile. It is exactly the tile less the overlap when that is positive, and the tile itself otherwise. |
| Tiling.SweepHasShape | app/core/image_utils_pil.py:76-106 | Window positions start at the loop's first position and move by the stride. They stay below the page, and only the last window reaches the far edge. |
| Tiling.SweepIncreasing | app/core/image_utils_cv2.py:77-124 | Window positions strictly increase. |
| Tiling.Scales | app/core/image_utils_cv2.py:96-106 | The scale factors take detector coordinates on the resized tile back to the crop. They are (1, 1) exactly when no resize happens. |
| Tiling.SliceImageInTiles | app/core/image_utils_cv2.py:59-135 | The two nested loops with their breaks produce exactly the reference list of tiles. |
| Tiling.TileRow | app/core/image_utils_pil.py:77-105 | The inner loop produces one tile per left position at the fixed top. |
| Tiling.GridRowMajor | app/core/image_utils_pil.py:76-106 | Tiles come out row by row: tile r·cols + c is cut at the r-th top and the c-th left. |
| Tiling.TilesCoverPage | app/core/image_utils_cv2.py:77-124 | With a non-negative overlap, every pixel lies in some tile, including when a tile is larger than the page (it is then cut once, at offset 0). |
| Tiling.TilesInsidePage | app/core/image_utils_pil.py:78-79 | Offsets are never negative. When the tile fits the page, the tile lies inside the page. |
| Tiling.BackendsAgree | app/core/image_utils_cv2.py:81-90 | When the tile fits the page, the OpenCV clamp and the Pillow clamp cut the same tiles with the same scales. |
| Slicing.SliceHorizontallyInPage | app/core/image_utils.py:60-91 | Bands lie inside the page and start at the left edge. On a page at least one slice tall, every band is exactly one slice tall. |
| Slicing.ShortPageOneBand | app/core/image_utils.py:72-76 | A page shorter than a slice gives one band: the whole page. |
| Slicing.SliceHorizontallyCovers | app/core/image_utils.py:60-91 | With a non-negative overlap, the bands start at 0, leave no gap, and the last ends at the page bottom. |
| ImageBoxes.ClampToImage | app/core/image_utils_cv2.py:144 | The minima are raised to at least 0 and the maxima capped at the image's width and height. A coordinate already within its bound is kept, so the clamp does not reorder a box (xmin 150 on a 100-wide image stays 150). |
| ImageBoxes.ClampIdempotent | app/core/image_utils_pil.py:124 | Clamping twice is clamping once, and a box inside the image is unchanged. |
| ImageBoxes.InpaintingMask | app/core/image_utils_cv2.py:228-245 | The mask has the image's shape and holds only 0 and 255. |
| ImageBoxes.MaskMarksBox | app/core/image_utils_cv2.py:241 | For a box inside the image, the mask is 255 exactly on [ymin, ymax) × [xmin, xmax) and 0 elsewhere. |
| ImageBoxes.MaskNegativeBound | app/core/image_utils_cv2.py:241 | For any `ymin` in [-h, 0), a cell is 255 exactly when its row lies in [h + ymin, where `ymax` lands) and its column in the box's x-slice: a negative bound counts from the far edge, as NumPy slicing does. |
| ImageBoxes.MaskLastRows | app/core/image_utils_cv2.py:241 | On a 100-row image, a box from row -10 to row 100 marks exactly the last 10 rows within its columns. |
| Segmenter.ClampedZonesAgree | app/core/image_utils_cv2.py:180-186 | Strictly inside the page, clamping the forbidden zones changes no safety verdict. |
| Segmenter.LargestSafeSpec | app/core/image_utils_pil.py:170-179 | The backward scan finds the largest safe line in (cur, top], and finds none exactly when no line there is safe. |
| Segmenter.PickSplitSpec | app/core/image_utils.py:113-125 | The split lies in (cur, top]. It is the largest safe line there when one exists, and `top` when none does. |
| Segmenter.CheckSafe | app/core/image_utils.py:117-122 | The loop over the boxes, with its early break, decides exactly whether the line lies strictly inside no zone. |
| Segmenter.ScanDown | app/core/image_utils_cv2.py:195-204 | The backward scan with its fallback returns the split the greedy rule prescribes. |
| Segmenter.SplitPoints | app/core/image_utils_pil.py:160-189 | Split points start at 0, strictly increase, end at the page height, and are at most `max_height` apart. Each follows from the previous by the scan. |
| Segmenter.SplitPointsCv2 | app/core/image_utils_cv2.py:188-207 | The same, with the OpenCV rule that a window reaching the bottom ends there without a scan. |
| Segmenter.NextSplitsAgree | app/core/image_utils_cv2.py:188-207 | Away from the bottom, the OpenCV split equals the Pillow split. |
| Segmenter.CutChunksSpec | app/core/image_utils_pil.py:192-201 | One chunk is cut per pair of consecutive split points, spanning that pair. |
| Segmenter.SplitImageSafelyCv2 | app/core/image_utils_cv2.py:168-225 | The chunks tile the page top to bottom, are no taller than `max_height`, and carry their start as top offset. Each chunk ending above the bottom ends at the greedy split. |
| Segmenter.SplitImageSafelyPil | app/core/image_utils_pil.py:147-207 | The chunks tile the page, carry their start as top offset, and each ends at the scan's split. |
| Segmenter.SplitImageSafelyPlain | app/core/image_utils.py:94-156 | As the Pillow version, but every chunk's top offset is 0. Box corners are reals, so the fractional OCR corners this version receives are covered. |
| Segmenter.SplitImageSafelyArchived | archives/0.2.0/app/core/image_utils.py:59-117 | With flat boxes and no margin, the spans tile the page and each ends at the scan's split. |
| Segmenter.SplitLandsOnZoneEdge | app/core/image_utils_pil.py:170-179 | A box spanning y 380..420 with `max_height` 400 gives the cut y = 360, on the edge of its zone. |
| Segmenter.SplitBelowFractionalBox | app/core/image_utils.py:116-125 | A fractional top corner is compared as it is: a box from y 379.5 puts row 360 inside its zone, so the cut moves to 359. |
| Text.Strip | app/core/translation/engine.py:142 | `strip()` returns a slice of its input with no whitespace at either end. |
| Text.StripUnique | app/core/translation/engine.py:142 | Any slice left after removing only whitespace from both ends, with non-space ends, is the result of `strip()`. |
| Text.StripPadded | app/core/translation/engine.py:137-142 | Whitespace padding around a text does not change what `strip()` returns. |
| Text.ZFillKeepsValue | app/core/translation.py:27 | `zfill` keeps the numeric value of a decimal string, sign included. |
| Text.IntToStringValue | app/core/translation.py:27 | `str()` of an integer reads back as that integer. |
| FolderName.SubtractOne | app/core/translation.py:13-29 | The replacement reads as the run's value minus 1. For a run of value at least 1 it keeps the run's width and stays all digits. |
| FolderName.SubtractOneFromZero | app/core/translation.py:23-27 | A run of value 0 of width w becomes "-1" when w <= 2, and otherwise "-", then w - 2 zeros, then "1" (`zfill` pads after the sign). |
| FolderName.SegmentsSpell | app/core/translation.py:74 | The folder name splits into maximal digit runs and single other characters that spell it back exactly. |
| FolderName.PreviousFolderWideDigits | app/core/translation.py:74 | Digits of any script are runs, as for `\d` and `int()`: the fullwidth "第１２話" becomes "第11話". |
| FolderName.PreviousFolderKeepsLayout | app/core/translation.py:74 | When every digit run has value at least 1, the previous folder's name has the same length. Each non-digit stays in place and digits stay digits. |
| Enumerated.LineNumber | app/core/translation.py:87-91 | Each line starts with its 1-based number, followed by ". " and the text with newlines replaced by spaces. |
| Enumerated.EnumeratedInputLines | archives/0.2.0/app/core/translation.py:31-35 | The input splits into exactly one numbered line per item, in item order. |
| Enumerated.FillWithFallback | app/core/translation.py:145-154 | Each item gets the reply's text for its index when there is one, and its own original text otherwise. Originals are untouched. |
| Enumerated.TranslateWithGemini | archives/0.2.0/app/core/translation.py:8-79 | An empty list is returned unchanged. Otherwise every item is filled with fallback. |
| TagProtocol.RecordLastWins | app/core/translation/engine.py:140-143 | The reply map has a key iff some match names it. Its value is the last such match's text, so later tags overwrite earlier ones. |
| TagProtocol.NextTagFirst | app/core/translation/engine.py:136-138 | The search for a tag stops at the first tag: no tag starts before it. |
| TagProtocol.TagOfHeader | app/core/translation/openai.py:86-88 | The header `<\|n\|>` is read back as tag n. |
| TagProtocol.CaptureEndPadded | app/core/translation/engine.py:137 | The capture after a tag stops at the next tag, not before it. |
| TagProtocol.PieceMatches | app/core/translation/googleai.py:113-120 | A piece `<\|n\|> t ` followed by any tail matches once, as index n − 1 with text `strip(t)`, and the tail is matched afterwards. |
| TagProtocol.ParseEncodeFrom | app/core/translation/openai.py:128-135 | Matching the encoded input yields the texts in order, numbered from the first index. |
| TagProtocol.ParseEncode | app/core/translation/engine.py:35-37 | Parsing an echoed input gives keys exactly 0..n−1, each mapped to its stripped text: the regex reads back what the encoder wrote. |
| TagProtocol.MissingMessage | app/core/translation/engine.py:152-154 | The error names the missing item's 1-based tag. |
| TagProtocol.AssignOrRaise | app/core/translation/engine.py:146-154 | It raises iff some index is missing from the reply, naming a missing index. Otherwise every item gets its index's text, and originals are untouched. |
| TagProtocol.AssignFromSpec | app/core/translation/openai.py:138-146 | Items before the first missing index are assigned, and the rest are untouched. |
| TagProtocol.AssignIgnoresOtherIndices | app/core/translation/googleai.py:123-130 | Reply entries for indices beyond the items change nothing. |
| TagProtocol.TranslateTexts | app/core/translation/googleai.py:20-21 | An empty list is returned unchanged with no error, and the item count is kept. |
| TagProtocol.EchoedReply | app/core/translation/engine.py:19-154 | A reply that echoes the encoded input raises no error and gives every item its stripped original as translation. |
| Glossary.LookupMapKeys | app/core/translation/glossary.py:12 | A term is a key of the lookup map iff some entry has both languages and that term as its source. |
| Glossary.LookupMapLastWins | app/core/translation/glossary.py:12 | For a source term, the map holds the target of the last entry with that source. |
| Glossary.LoadGlossary | app/core/translation/glossary.py:5-20 | A missing file gives no entries, an empty map and "Not Available". Otherwise the entries are the file's, and the map's keys are exactly the complete entries' source terms. |
| Glossary.NewGlossaryLastWins | app/core/translation/glossary.py:25 | The dict built from the model's pairs has distinct keys, and each source term maps to its last translation. |
| Glossary.PutLookup | app/core/translation/glossary.py:25 | Inserting into an insertion-ordered dict sets that key's value and leaves the other keys' values alone. |
| Glossary.FreshPairsExact | app/core/translation/glossary.py:32 | A pair is appended iff both terms are non-empty and neither is a key of the lookup map. |
| Glossary.NewItem | app/core/translation/glossary.py:34-37 | A new entry maps the target code to the target term, and the source code to the source term when the codes differ. |
| Glossary.AppendFresh | app/core/translation/glossary.py:29-39 | The first loop keeps the existing entries as a prefix, appends only entries with both languages, and counts two terms per entry. |
| Glossary.AppendFreshFrom | app/core/translation/glossary.py:29-39 | Every appended entry is the new item of some fresh pair. |
| Glossary.AppendFreshAll | app/core/translation/glossary.py:29-39 | Every fresh pair is appended. |
| Glossary.FillStep | app/core/translation/glossary.py:43-50 | One pair against one entry adds at most one language code and overwrites nothing. It counts 1 exactly when it added a key. |
| Glossary.FillEntrySpec | app/core/translation/glossary.py:41-50 | Filling never removes or overwrites a key and adds only the two language codes. It counts something exactly when the entry changed. |
| Glossary.FillEntryComplete | app/core/translation/glossary.py:44-48 | An entry that has both languages is left alone. |
| Glossary.FillEntryAddsTarget | app/core/translation/glossary.py:44-45 | An entry holding a non-empty source term of some pair ends up with a target term. |
| Glossary.FillEntryAddsSource | app/core/translation/glossary.py:48-49 | An entry with a target term that holds a non-empty translated term of some pair ends up with a source term. |
| Glossary.FillAllExtends | app/core/translation/glossary.py:41-50 | The second loop fills each entry, appended ones included, only by adding language codes. |
| Glossary.FillAllCounts | app/core/translation/glossary.py:41-50 | The second loop counts nothing iff it changes nothing. |
| Glossary.UpdateGlossary | app/core/translation/glossary.py:52-57 | The glossary never shrinks. It is written iff something was counted. |
| Glossary.UpdateGlossarySpec | app/core/translation/glossary.py:23-57 | The existing entries keep every key and value and gain only the two language codes. The file is written exactly when the glossary changed. |
| Glossary.UpdateGlossaryAppends | app/core/translation/glossary.py:29-50 | Each appended entry is the new item of a fresh pair of the model's dict, untouched by the second loop. |

## Left out

- Model inference is not modelled: the ONNX detector, PaddleOCR, manga-ocr, the inpainting model, and the LLM and Gemini calls. Their outputs (detector rows, OCR lines, reply texts, glossary pairs) are parameters.
- The network, API keys, environment variables and prompt templates (`prompt.yaml`, the Gemini prompt text) are left out, because they affect no computed value the model checks.
- Pixel data, image resizing and interpolation, colour conversion, file reads and writes, the TRACE debug dumps and logging are left out. Only coordinates, offsets, crop sizes and masks are kept.
- `merge_images_vertically`, `crop_out_box`'s upscaling, the overlay drawing, `main.py`, the configuration, and the thread pools (`batch_threaded`, `process`) are not part of this model.
- The SQLite translation memory (`tm.add_translation`) is left out. It only records pairs and changes nothing the translators return.
- JSON loading and dumping is left out. The glossary file is modelled as present (a list of entries) or missing. The "context" string is modelled as the lookup map itself rather than its `json.dumps` text.
- Floating point is modelled as mathematical reals, and the `np.int32` cast as truncation without 32-bit wrap-around. Scores, confidences and IoU ratios are compared exactly.
- The regular expression of the Gemini reply (`^(\d+)\.\s*(.*?)(?=\n\d+\.|\n*$)`, translation.py:134-141) is left out. The Gemini fill step takes the already-parsed map as a parameter, because its line and end-of-text anchors are not modelled.
- `\d` and `int()` are modelled with the decimal digits (general category Nd) of Unicode 15.0. A Python built on another Unicode version may know a few more or fewer digit blocks.
- Tiling, slicing and segmenting assume positive tile, slice and `max_height` sizes. With `max_height <= 0` the source loops forever.
- The key order inside one glossary entry dict (what `json.dump` writes) is not modelled. Entries are maps.
- Detection.MergeOverlapping: idempotence is not promised, because the code does not have it. `Detection.MergeOverlappingNotIdempotent` proves a counterexample instead.
- Glossary.FillEntryAddsSource: it requires the entry to already have the target code. Without it, the first branch of the same pair may add the target instead, and the lemma does not describe that case.
- Slicing.SliceHorizontallyCovers: covering is stated only for a non-negative overlap (likewise Tiling.TilesCoverPage). A negative overlap (stride larger than the tile) leaves gaps, as the source does.
- Common.Trunc: stated for Python's `int()` on finite values only. NaN and infinity are not reals.

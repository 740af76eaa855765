/** The part of a result record the translation steps read and write. The
    other keys of the record (box, confidence, image name, ...) pass through
    these steps untouched and are not repeated here. */
module Items {
  datatype TextItem = TextItem(originalText: string, translatedText: string)

  function Originals(items: seq<TextItem>): (texts: seq<string>)
    ensures |texts| == |items|
    ensures forall i :: 0 <= i < |items| ==> texts[i] == items[i].originalText
  {
    seq(|items|, i requires 0 <= i < |items| => items[i].originalText)
  }
}

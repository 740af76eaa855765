/** The Gemini path of `translate_texts_with_gemini` (current and archived
    versions): the numbered list sent to the model, and the fill step that
    gives every item the model's line for its number or, failing that, its
    own original text. The model's reply is taken as the already-parsed map
    from item index to translated text. */
module Enumerated {
  import opened Text
  import opened Items

  /** `f"{i+1}. {clean_text}"` with every newline of the text replaced by a
      space; the line's terminating "\n" is added by `Unlines`. */
  function Line(i: nat, text: string): string
  {
    NatToString(i + 1) + ". " + ReplaceNewlines(text)
  }

  /** Each line followed by "\n". */
  function Unlines(ls: seq<string>): string
  {
    if |ls| == 0 then "" else ls[0] + "\n" + Unlines(ls[1..])
  }

  /** The enumerated input: one numbered line per item, in item order. */
  function EnumeratedInput(items: seq<TextItem>): string
  {
    Unlines(seq(|items|, i requires 0 <= i < |items| => Line(i, items[i].originalText)))
  }

  /** The loop's `enumerated_input += f"{i+1}. {clean_text}\n"`: adding one
      item appends exactly its line. */
  lemma {:induction false} EnumeratedInputSnoc(items: seq<TextItem>, x: TextItem)
    ensures EnumeratedInput(items + [x]) == EnumeratedInput(items) + Line(|items|, x.originalText) + "\n"
  {
    var ls := seq(|items|, i requires 0 <= i < |items| => Line(i, items[i].originalText));
    var ys := items + [x];
    var ls2 := seq(|ys|, i requires 0 <= i < |ys| => Line(i, ys[i].originalText));
    assert ls2 == ls + [Line(|items|, x.originalText)];
    UnlinesSnoc(ls, Line(|items|, x.originalText));
  }

  lemma {:induction false} UnlinesSnoc(ls: seq<string>, l: string)
    ensures Unlines(ls + [l]) == Unlines(ls) + l + "\n"
  {
    if |ls| > 0 {
      assert (ls + [l])[1..] == ls[1..] + [l];
      UnlinesSnoc(ls[1..], l);
    }
  }

  predicate NoNewline(s: string) { forall j :: 0 <= j < |s| ==> s[j] != '\n' }

  function FirstNewline(s: string): (k: nat)
    ensures k <= |s| && NoNewline(s[..k])
    ensures k < |s| ==> s[k] == '\n'
  {
    if |s| == 0 || s[0] == '\n' then 0
    else
      var k := 1 + FirstNewline(s[1..]);
      assert forall j :: 1 <= j < k ==> s[..k][j] == s[1..][..k - 1][j - 1];
      k
  }

  lemma FirstNewlineAt(s: string, k: nat)
    requires k < |s| && NoNewline(s[..k]) && s[k] == '\n'
    ensures SplitLines(s) == [s[..k]] + SplitLines(s[k + 1..])
  {
    assert FirstNewline(s) == k by {
      NewlineFreePrefix(s, FirstNewline(s));
      NewlineFreePrefix(s, k);
    }
  }

  lemma NewlineFreePrefix(s: string, k: nat)
    requires k <= |s| && NoNewline(s[..k])
    ensures forall j :: 0 <= j < k ==> s[j] != '\n'
  {
    assert forall j :: 0 <= j < k ==> s[..k][j] == s[j];
  }

  /** Python's `s.split("\n")`. */
  function SplitLines(s: string): seq<string>
    decreases |s|
  {
    var k := FirstNewline(s);
    if k == |s| then [s] else [s[..k]] + SplitLines(s[k + 1..])
  }

  /** Lines without newlines come back out of `split("\n")`, followed by
      the empty string after the final terminator. */
  lemma {:induction false} SplitUnlines(ls: seq<string>)
    requires forall i :: 0 <= i < |ls| ==> NoNewline(ls[i])
    ensures SplitLines(Unlines(ls)) == ls + [""]
  {
    if |ls| > 0 {
      SplitUnlines(ls[1..]);
      SplitUnlinesStep(ls);
    }
  }

  lemma SplitUnlinesStep(ls: seq<string>)
    requires |ls| > 0 && NoNewline(ls[0])
    requires SplitLines(Unlines(ls[1..])) == ls[1..] + [""]
    ensures SplitLines(Unlines(ls)) == ls + [""]
  {
    SplitCons(ls[0], Unlines(ls[1..]));
    assert ls == [ls[0]] + ls[1..];
  }

  lemma SplitCons(head: string, rest: string)
    requires NoNewline(head)
    ensures SplitLines(head + "\n" + rest) == [head] + SplitLines(rest)
  {
    var u := head + "\n" + rest;
    assert u[..|head|] == head;
    assert u[|head| + 1..] == rest;
    FirstNewlineAt(u, |head|);
  }

  /** The number in front of a line reads back as the item's position plus
      one, followed by ". " and the item's text with newlines replaced. */
  lemma LineNumber(i: nat, text: string)
    ensures LeadingDigits(Line(i, text)) == |NatToString(i + 1)|
    ensures DigitsValue(Line(i, text)[..|NatToString(i + 1)|]) == i + 1
    ensures Line(i, text)[|NatToString(i + 1)|..] == ". " + ReplaceNewlines(text)
  {
    var l := Line(i, text);
    var d := NatToString(i + 1);
    assert l == d + (". " + ReplaceNewlines(text));
    assert l[..|d|] == d;
    assert l[|d|] == '.';
    LeadingDigitsAt(l, |d|);
    NatToStringValue(i + 1);
  }

  /** The enumerated input splits into exactly one numbered line per item,
      in item order, and nothing else but the empty remainder after the last
      newline. */
  lemma EnumeratedInputLines(items: seq<TextItem>)
    ensures SplitLines(EnumeratedInput(items))
            == seq(|items|, i requires 0 <= i < |items| => Line(i, items[i].originalText)) + [""]
  {
    var ls := seq(|items|, i requires 0 <= i < |items| => Line(i, items[i].originalText));
    forall i | 0 <= i < |ls|
      ensures NoNewline(ls[i])
    {
      var d := NatToString(i + 1);
      var r := ReplaceNewlines(items[i].originalText);
      assert ls[i] == d + ". " + r;
      assert forall j :: 0 <= j < |d| ==> ls[i][j] == d[j];
      assert forall j :: |d| + 2 <= j < |ls[i]| ==> ls[i][j] == r[j - |d| - 2];
    }
    SplitUnlines(ls);
  }

  /** The fill step: item `i` gets `translated_map[i]` when the reply has
      that number, and its own original text otherwise. */
  method FillWithFallback(items: seq<TextItem>, translated: map<int, string>) returns (out: seq<TextItem>)
    ensures |out| == |items|
    ensures forall i :: 0 <= i < |items| ==> out[i].originalText == items[i].originalText
    ensures forall i :: 0 <= i < |items| && i in translated ==> out[i].translatedText == translated[i]
    ensures forall i :: 0 <= i < |items| && i !in translated ==> out[i].translatedText == items[i].originalText
  {
    out := items;
    var i := 0;
    while i < |items|
      invariant 0 <= i <= |items| && |out| == |items|
      invariant forall j :: 0 <= j < |items| ==> out[j].originalText == items[j].originalText
      invariant forall j :: 0 <= j < i && j in translated ==> out[j].translatedText == translated[j]
      invariant forall j :: 0 <= j < i && j !in translated ==> out[j].translatedText == items[j].originalText
    {
      if i in translated {
        out := out[i := out[i].(translatedText := translated[i])];
      } else {
        out := out[i := out[i].(translatedText := out[i].originalText)];
      }
      i := i + 1;
    }
  }

  /** `translate_texts_with_gemini` past the client call: an empty list is
      returned as it is, any other list is filled from the parsed reply. */
  method TranslateWithGemini(items: seq<TextItem>, translated: map<int, string>) returns (out: seq<TextItem>)
    ensures |items| == 0 ==> out == items
    ensures |out| == |items|
    ensures forall i :: 0 <= i < |items| ==> out[i].originalText == items[i].originalText
    ensures forall i :: 0 <= i < |items| ==>
              out[i].translatedText == if i in translated then translated[i] else items[i].originalText
  {
    if |items| == 0 {
      return items;
    }
    out := FillWithFallback(items, translated);
  }
}

/** The numbered-tag protocol shared by the LiteLLM, OpenAI and Google AI
    translators: every item's text is sent behind a `<|n|>` tag, the reply
    is cut at the tags it contains, and each item must get the text of its
    own tag or the whole step fails. */
module TagProtocol {
  import opened Common
  import opened Text
  import opened Items

  // ---------------------------------------------------------------------
  // Encoding

  /** `f"<|{n}|>"` without the text that follows. */
  function Tag(n: nat): string
  {
    "<|" + NatToString(n) + "|>"
  }

  /** `f"<|{i+1}|> {text} "`: item `i`'s piece of the request. */
  function Piece(i: nat, text: string): string
  {
    Tag(i + 1) + (" " + text + " ")
  }

  /** The pieces of `texts`, numbered from `first + 1` on. */
  function EncodeFrom(texts: seq<string>, first: nat): string
  {
    if |texts| == 0 then "" else Piece(first, texts[0]) + EncodeFrom(texts[1..], first + 1)
  }

  /** `enumerated_input`: every item's piece, in item order. */
  function Encode(texts: seq<string>): string
  {
    EncodeFrom(texts, 0)
  }

  /** The loop's `enumerated_input += f"<|{i+1}|> {text} "`: one more item
      appends exactly its piece. */
  lemma {:induction false} EncodeFromSnoc(texts: seq<string>, t: string, first: nat)
    ensures EncodeFrom(texts + [t], first) == EncodeFrom(texts, first) + Piece(first + |texts|, t)
  {
    if |texts| > 0 {
      var a := Piece(first, texts[0]);
      var b := EncodeFrom(texts[1..], first + 1);
      var c := Piece(first + |texts|, t);
      assert EncodeFrom(texts + [t], first) == a + EncodeFrom(texts[1..] + [t], first + 1) by {
        assert (texts + [t])[1..] == texts[1..] + [t];
      }
      EncodeFromSnoc(texts[1..], t, first + 1);
      Assoc(a, b, c);
    }
  }

  lemma Assoc(a: string, b: string, c: string)
    ensures a + (b + c) == (a + b) + c
  {
  }

  // ---------------------------------------------------------------------
  // Parsing

  /** The tag `<\|(\d+)\|>` at the very start of `s`, as its number and its
      length. The digit run must be maximal, since a digit cannot stand where
      the closing `|` is expected. */
  function TagAt(s: string): (r: Option<(nat, nat)>)
    ensures r.Some? ==> 4 <= r.value.1 <= |s|
  {
    if |s| >= 2 && s[0] == '<' && s[1] == '|' then
      var d := LeadingDigits(s[2..]);
      if d >= 1 && |s| >= d + 4 && s[d + 2] == '|' && s[d + 3] == '>' then
        LeadingDigitsRun(s[2..]);
        assert forall k :: 0 <= k < d ==> s[2..d + 2][k] == s[2..][k];
        assert forall k :: 2 <= k < d + 2 ==> s[k] == s[2..][k - 2];
        Some((DigitsValue(s[2..d + 2]), d + 4))
      else None
    else None
  }

  /** Position of the first tag in `s`, or `|s|` when there is none. */
  function NextTag(s: string): (q: nat)
    ensures q <= |s|
  {
    if |s| == 0 || TagAt(s).Some? then 0 else 1 + NextTag(s[1..])
  }

  /** `NextTag` stops only at a tag. */
  lemma {:induction false} NextTagFound(s: string)
    ensures NextTag(s) < |s| ==> TagAt(s[NextTag(s)..]).Some?
  {
    if |s| > 0 {
      if TagAt(s).Some? {
        assert s[0..] == s;
      } else {
        NextTagFound(s[1..]);
        assert NextTag(s) < |s| ==> s[NextTag(s)..] == s[1..][NextTag(s) - 1..];
      }
    }
  }

  /** No tag starts before the one `NextTag` finds. */
  lemma {:induction false} NextTagFirst(s: string, p: nat)
    requires p < NextTag(s)
    ensures TagAt(s[p..]).None?
    decreases p
  {
    if p == 0 {
      assert s[0..] == s;
    } else {
      NextTagFirst(s[1..], p - 1);
      assert s[1..][p - 1..] == s[p..];
    }
  }

  /** Where the lazy capture `(.*?)` stops: the first position where the
      lookahead `(?=<\|\d+\|>|$)` holds. Without MULTILINE, `$` holds at the
      end of the string and also just before a final newline. */
  function CaptureEnd(rest: string): (k: nat)
    ensures k <= |rest|
  {
    var q := NextTag(rest);
    if q < |rest| then q
    else if |rest| > 0 && rest[|rest| - 1] == '\n' then |rest| - 1
    else |rest|
  }

  /** The matches of `finditer`, in order: the index each tag names and
      the text captured after it. */
  datatype Matched = End | Match(index: int, text: string, next: Matched)

  /** `pattern.finditer(translation_text)`: for every tag, in order, the
      index it names (`int(n) - 1`) and the stripped text up to the next tag
      or the end of the reply. The `\s*` after the tag only removes
      whitespace that `strip()` removes anyway. */
  function Matches(s: string): Matched
    decreases |s|, 2
  {
    var q := NextTag(s);
    if q == |s| then End
    else
      NextTagFound(s);
      MatchesFromTag(s[q..])
  }

  /** The matches from a tag at the start of `s` on. */
  function MatchesFromTag(s: string): Matched
    requires TagAt(s).Some?
    decreases |s|, 1
  {
    var tag := TagAt(s).value;
    MatchAfter(tag.0, s[tag.1..])
  }

  /** The match of tag number `n` whose text follows in `rest`, then the
      matches after its capture. */
  function MatchAfter(n: nat, rest: string): Matched
    decreases |rest| + 1, 3
  {
    var stop := CaptureEnd(rest);
    Match(n - 1, Strip(rest[..stop]), Matches(rest[stop..]))
  }

  /** `translated_map[item_index] = translated_text` for each match in
      turn, starting from the map `m`. */
  function Record(m: map<int, string>, ms: Matched): map<int, string>
    decreases ms
  {
    match ms
    case End => m
    case Match(i, t, next) => Record(m[i := t], next)
  }

  /** The parsed reply: index to translated text. */
  function Parse(reply: string): map<int, string>
  {
    Record(map[], Matches(reply))
  }

  /** Some match names index `k`. */
  predicate Names(ms: Matched, k: int)
  {
    match ms
    case End => false
    case Match(i, _, next) => i == k || Names(next, k)
  }

  /** The text of the last match naming `k`. */
  function LastText(ms: Matched, k: int): string
    requires Names(ms, k)
  {
    match ms
    case Match(i, t, next) => if Names(next, k) then LastText(next, k) else t
  }

  /** An index is in the map exactly when it was there before or some match
      names it; a named index maps to the text of the last match naming it,
      and any other index keeps its earlier value. */
  lemma {:induction false} RecordLastWins(m: map<int, string>, ms: Matched, k: int)
    ensures k in Record(m, ms) <==> k in m || Names(ms, k)
    ensures Names(ms, k) ==> Record(m, ms)[k] == LastText(ms, k)
    ensures !Names(ms, k) && k in m ==> Record(m, ms)[k] == m[k]
    decreases ms
  {
    match ms
    case End =>
    case Match(i, t, next) =>
      RecordLastWins(m[i := t], next, k);
  }

  // ---------------------------------------------------------------------
  // Round trip

  /** The text contains no `<|digits|>` sequence anywhere. */
  predicate TagFree(t: string)
  {
    forall p :: 0 <= p <= |t| ==> TagAt(t[p..]).None?
  }

  /** `Matches` of an encoding, item by item: index and stripped text. */
  function Numbered(texts: seq<string>, first: nat): Matched
  {
    if |texts| == 0 then End else Match(first, Strip(texts[0]), Numbered(texts[1..], first + 1))
  }

  /** A tag depends only on its own characters. */
  lemma TagAtLocal(x: string, y: string)
    requires TagAt(x).Some?
    requires |y| >= TagAt(x).value.1 && y[..TagAt(x).value.1] == x[..TagAt(x).value.1]
    ensures TagAt(y) == TagAt(x)
  {
    var e := TagAt(x).value.1;
    var d := e - 4;
    assert forall k :: 0 <= k < e ==> y[k] == x[k] by {
      assert forall k :: 0 <= k < e ==> y[..e][k] == y[k] && x[..e][k] == x[k];
    }
    assert LeadingDigits(x[2..]) == d;
    LeadingDigitsRun(x[2..]);
    assert x[2..][..d] == y[2..][..d];
    LeadingDigitsAt(y[2..], d);
    assert y[2..d + 2] == x[2..d + 2];
  }

  /** `Tag(n)` in front of anything reads back as `n`. */
  lemma TagOfHeader(n: nat, w: string)
    ensures TagAt(Tag(n) + w) == Some((n, |NatToString(n)| + 4))
  {
    var dn := NatToString(n);
    assert Tag(n) + w == "<|" + dn + ("|>" + w) by {
      Assoc("<|" + dn, "|>", w);
    }
    assert |dn| >= 1 && AllDigits(dn) && DigitsValue(dn) == n by {
      NatToStringValue(n);
    }
    TagOfDigits(dn, w);
  }

  lemma TagOfDigits(dn: string, w: string)
    requires |dn| >= 1 && AllDigits(dn)
    ensures TagAt("<|" + dn + ("|>" + w)) == Some((DigitsValue(dn), |dn| + 4))
  {
    var s := "<|" + dn + ("|>" + w);
    var d := |dn|;
    assert s[2..d + 2] == dn;
    assert s[0] == '<' && s[1] == '|' && s[d + 2] == '|' && s[d + 3] == '>';
    TagFromParts(s, d);
  }

  /** The characters of a tag, one by one, make a tag. */
  lemma TagFromParts(s: string, d: nat)
    requires 1 <= d && d + 4 <= |s| && AllDigits(s[2..d + 2])
    requires s[0] == '<' && s[1] == '|' && s[d + 2] == '|' && s[d + 3] == '>'
    ensures TagAt(s) == Some((DigitsValue(s[2..d + 2]), d + 4))
  {
    assert s[2..][..d] == s[2..d + 2];
    assert s[2..][d] == '|';
    LeadingDigitsAt(s[2..], d);
  }

  /** A tag holds no whitespace. */
  lemma TagNoSpace(s: string, j: nat)
    requires TagAt(s).Some? && j < TagAt(s).value.1
    ensures !IsSpace(s[j])
  {
    var d := LeadingDigits(s[2..]);
    LeadingDigitsRun(s[2..]);
    if 2 <= j < d + 2 {
      assert IsDigit(s[2..][j - 2]);
    }
  }

  /** A tag that starts inside `x` and would run on past the space after it
      lies wholly inside `x`, since tags contain no whitespace. */
  lemma TagWithin(x: string, w: string)
    ensures TagAt(x + " " + w).Some? ==> TagAt(x).Some?
  {
    var y := x + " " + w;
    if TagAt(y).Some? {
      var e := TagAt(y).value.1;
      assert y[|x|] == ' ';
      if |x| < e {
        TagNoSpace(y, |x|);
      }
      assert e <= |x|;
      assert y[..e] == x[..e];
      TagAtLocal(y, x);
    }
  }

  /** Skipping a tag-free prefix when looking for the next tag. */
  lemma {:induction false} NextTagSkip(x: string, w: string)
    requires forall p :: 0 <= p < |x| ==> TagAt((x + w)[p..]).None?
    ensures NextTag(x + w) == |x| + NextTag(w)
    decreases |x|
  {
    if |x| > 0 {
      assert (x + w)[0..] == x + w;
      assert (x + w)[1..] == x[1..] + w;
      forall p | 0 <= p < |x| - 1
        ensures TagAt((x[1..] + w)[p..]).None?
      {
        assert (x[1..] + w)[p..] == (x + w)[p + 1..];
      }
      NextTagSkip(x[1..], w);
    } else {
      assert x + w == w;
    }
  }

  /** Inside `" " + t + " "` no tag starts when `t` is tag-free. */
  lemma NoTagInPadded(t: string, w: string)
    requires TagFree(t)
    ensures forall p :: 0 <= p < |t| + 2 ==> TagAt((" " + t + " " + w)[p..]).None?
  {
    var s := " " + t + " " + w;
    forall p | 0 <= p < |t| + 2
      ensures TagAt(s[p..]).None?
    {
      if 1 <= p <= |t| {
        assert s[p..] == t[p - 1..] + " " + w;
        TagWithin(t[p - 1..], w);
      } else {
        assert s[p..][0] == ' ';
      }
    }
  }

  /** The capture after a tag-free text stops right after its closing
      space: at the next piece's tag, or at the end of the reply. */
  lemma CaptureEndPadded(t: string, tail: string)
    requires TagFree(t)
    requires tail == [] || TagAt(tail).Some?
    ensures CaptureEnd(" " + t + " " + tail) == |t| + 2
  {
    var x := " " + t + " ";
    NoTagInPadded(t, tail);
    assert x + tail == " " + t + " " + tail;
    NextTagSkip(x, tail);
    if tail == [] {
      assert x + tail == x;
    } else {
      assert tail[0..] == tail;
    }
  }

  /** A reply that starts with a tag: its first match, then the rest. */
  lemma MatchesAt(s: string, n: nat, e: nat)
    requires TagAt(s) == Some((n, e))
    ensures Matches(s) == MatchAfter(n, s[e..])
  {
    assert Matches(s) == MatchesFromTag(s) by {
      assert NextTag(s) == 0;
      assert s[0..] == s;
    }
  }

  /** After a piece's tag: the capture is the padded text, stripped, and
      the scan resumes at the next piece. */
  lemma PaddedCapture(t: string, tail: string)
    requires TagFree(t)
    requires tail == [] || TagAt(tail).Some?
    ensures CaptureEnd(" " + t + " " + tail) == |t| + 2
    ensures Strip((" " + t + " " + tail)[..|t| + 2]) == Strip(t)
    ensures (" " + t + " " + tail)[|t| + 2..] == tail
  {
    var padded := " " + t + " " + tail;
    CaptureEndPadded(t, tail);
    assert padded[..|t| + 2] == " " + t + " ";
    StripPadded(" ", t, " ");
  }

  /** One piece of the encoding parses to its index and stripped text. */
  lemma PieceMatches(i: nat, t: string, tail: string)
    requires TagFree(t)
    requires tail == [] || TagAt(tail).Some?
    ensures Matches(Piece(i, t) + tail) == Match(i, Strip(t), Matches(tail))
  {
    var padded := " " + t + " " + tail;
    var s := Tag(i + 1) + padded;
    var e := |NatToString(i + 1)| + 4;
    assert Piece(i, t) + tail == s by {
      Assoc(Tag(i + 1), " " + t + " ", tail);
    }
    assert TagAt(s) == Some((i + 1, e)) by {
      TagOfHeader(i + 1, padded);
    }
    assert Matches(s) == MatchAfter(i + 1, padded) by {
      MatchesAt(s, i + 1, e);
      assert s[e..] == padded;
    }
    MatchAfterPadded(i, t, tail);
  }

  lemma MatchAfterPadded(i: nat, t: string, tail: string)
    requires TagFree(t)
    requires tail == [] || TagAt(tail).Some?
    ensures MatchAfter(i + 1, " " + t + " " + tail) == Match(i, Strip(t), Matches(tail))
  {
    PaddedCapture(t, tail);
  }

  lemma EncodeStartsWithTag(texts: seq<string>, first: nat)
    requires |texts| > 0
    ensures TagAt(EncodeFrom(texts, first)).Some?
  {
    var rest := " " + texts[0] + " " + EncodeFrom(texts[1..], first + 1);
    Assoc(Tag(first + 1), " " + texts[0] + " ", EncodeFrom(texts[1..], first + 1));
    TagOfHeader(first + 1, rest);
  }

  lemma ParseEncodeStep(texts: seq<string>, first: nat)
    requires |texts| > 0 && TagFree(texts[0])
    requires Matches(EncodeFrom(texts[1..], first + 1)) == Numbered(texts[1..], first + 1)
    ensures Matches(EncodeFrom(texts, first)) == Numbered(texts, first)
  {
    var tail := EncodeFrom(texts[1..], first + 1);
    if |texts| > 1 {
      EncodeStartsWithTag(texts[1..], first + 1);
    }
    PieceMatches(first, texts[0], tail);
  }

  lemma {:induction false} ParseEncodeFrom(texts: seq<string>, first: nat)
    requires forall k :: 0 <= k < |texts| ==> TagFree(texts[k])
    ensures Matches(EncodeFrom(texts, first)) == Numbered(texts, first)
  {
    if |texts| > 0 {
      assert forall k :: 0 <= k < |texts| - 1 ==> texts[1..][k] == texts[k + 1];
      ParseEncodeFrom(texts[1..], first + 1);
      ParseEncodeStep(texts, first);
    }
  }

  /** The numbered matches name exactly the indices `first` up to
      `first + |texts|`, each with its own text, stripped. */
  lemma {:induction false} NumberedNames(texts: seq<string>, first: nat, k: int)
    ensures Names(Numbered(texts, first), k) <==> first <= k < first + |texts|
    ensures first <= k < first + |texts| ==> LastText(Numbered(texts, first), k) == Strip(texts[k - first])
    decreases |texts|
  {
    if |texts| > 0 {
      NumberedNames(texts[1..], first + 1, k);
    }
  }

  /** Parsing the encoding of tag-free texts gives back every text,
      stripped, under its own index, and no other index. */
  lemma ParseEncode(texts: seq<string>)
    requires forall k :: 0 <= k < |texts| ==> TagFree(texts[k])
    ensures forall k :: k in Parse(Encode(texts)) <==> 0 <= k < |texts|
    ensures forall k :: 0 <= k < |texts| ==> Parse(Encode(texts))[k] == Strip(texts[k])
  {
    ParseEncodeFrom(texts, 0);
    var ms := Numbered(texts, 0);
    forall k
      ensures k in Record(map[], ms) <==> 0 <= k < |texts|
      ensures 0 <= k < |texts| ==> Record(map[], ms)[k] == Strip(texts[k])
    {
      NumberedNames(texts, 0, k);
      RecordLastWins(map[], ms, k);
    }
  }

  // ---------------------------------------------------------------------
  // Assign or raise

  /** The text of the exception raised for a missing item. */
  function MissingMessage(index: nat): (msg: string)
    ensures |msg| >= 28 && msg[..28] == "Missing translation for tag "
    ensures TagAt(msg[28..]) == Some((index + 1, |msg| - 28))
  {
    var msg := "Missing translation for tag " + Tag(index + 1);
    TagOfHeader(index + 1, "");
    assert msg[28..] == Tag(index + 1) + "";
    msg
  }

  /** The assignment loop from item `i` on: items are updated in place in
      order, and the first item whose index is not in the map stops the loop
      with that index, leaving it and the rest as they were. */
  function AssignFrom(items: seq<TextItem>, m: map<int, string>, i: nat): (seq<TextItem>, Option<nat>)
    requires i <= |items|
    decreases |items| - i
  {
    if i == |items| then (items, None)
    else if i !in m then (items, Some(i))
    else AssignFrom(items[i := items[i].(translatedText := m[i])], m, i + 1)
  }

  /** What the loop from `i` leaves behind, given the items before `i` are
      already assigned. */
  predicate AssignedUpTo(before: seq<TextItem>, after: seq<TextItem>, missing: Option<nat>, m: map<int, string>, i: nat)
  {
    |after| == |before|
    && (forall j :: 0 <= j < |before| ==> after[j].originalText == before[j].originalText)
    && (missing.None? <==> forall j :: i <= j < |before| ==> j in m)
    && (missing.None? ==> forall j :: i <= j < |before| ==> after[j].translatedText == m[j])
    && (missing.Some? ==> i <= missing.value < |before| && missing.value !in m
                          && (forall j :: i <= j < missing.value ==> j in m && after[j].translatedText == m[j])
                          && (forall j :: missing.value <= j < |before| ==> after[j] == before[j]))
    && (forall j :: 0 <= j < i && j < |before| ==> after[j] == before[j])
  }

  lemma {:induction false} AssignFromSpec(items: seq<TextItem>, m: map<int, string>, i: nat)
    requires i <= |items|
    ensures AssignedUpTo(items, AssignFrom(items, m, i).0, AssignFrom(items, m, i).1, m, i)
    decreases |items| - i
  {
    if i < |items| && i in m {
      var next := items[i := items[i].(translatedText := m[i])];
      AssignFromSpec(next, m, i + 1);
    }
  }

  /** The assignment loop of `translate_texts_and_build_glossary`: the
      updated list, and the index of the item that raised, if any. On
      success every item carries its tag's text; on failure the items before
      the first missing index are already updated and the rest are not. */
  function AssignOrRaise(items: seq<TextItem>, m: map<int, string>): (r: (seq<TextItem>, Option<nat>))
    ensures |r.0| == |items|
    ensures forall j :: 0 <= j < |items| ==> r.0[j].originalText == items[j].originalText
    ensures r.1.None? <==> forall j :: 0 <= j < |items| ==> j in m
    ensures r.1.None? ==> forall j :: 0 <= j < |items| ==> r.0[j].translatedText == m[j]
    ensures r.1.Some? ==> r.1.value < |items| && r.1.value !in m
                          && (forall j :: 0 <= j < r.1.value ==> j in m && r.0[j].translatedText == m[j])
                          && (forall j :: r.1.value <= j < |items| ==> r.0[j] == items[j])
  {
    AssignFromSpec(items, m, 0);
    AssignFrom(items, m, 0)
  }

  /** Entries of the map under indices outside the list make no difference. */
  lemma {:induction false} AssignIgnoresOtherIndices(items: seq<TextItem>, m1: map<int, string>, m2: map<int, string>, i: nat)
    requires i <= |items|
    requires forall j :: 0 <= j < |items| ==> (j in m1 <==> j in m2) && (j in m1 ==> m1[j] == m2[j])
    ensures AssignFrom(items, m1, i) == AssignFrom(items, m2, i)
    decreases |items| - i
  {
    if i < |items| && i in m1 {
      AssignIgnoresOtherIndices(items[i := items[i].(translatedText := m1[i])], m1, m2, i + 1);
    }
  }

  /** The whole step after the client call: an empty list comes back as it
      is, any other list goes through parse and assign. */
  function TranslateTexts(items: seq<TextItem>, reply: string): (r: (seq<TextItem>, Option<nat>))
    ensures |items| == 0 ==> r == (items, None)
    ensures |r.0| == |items|
  {
    if |items| == 0 then (items, None) else AssignOrRaise(items, Parse(reply))
  }

  /** A reply that repeats the request unchanged translates every item to
      its own stripped text and raises nothing. */
  lemma EchoedReply(items: seq<TextItem>)
    requires forall k :: 0 <= k < |items| ==> TagFree(items[k].originalText)
    ensures TranslateTexts(items, Encode(Originals(items))).1 == None
    ensures forall k :: 0 <= k < |items| ==>
              TranslateTexts(items, Encode(Originals(items))).0[k].translatedText == Strip(items[k].originalText)
  {
    ParseEncode(Originals(items));
  }
}

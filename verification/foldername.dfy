/** The name of the previous chapter's output folder, used to look up that
    chapter's summary: every run of decimal digits in the folder name is
    replaced by the number one less, zero-padded back to the run's width
    (`subtract_one` under `re.sub(r'\d+', ...)`). */
module FolderName {
  import opened Text

  /** `subtract_one` on one digit run: `str(int(run) - 1).zfill(len(run))`.
      The result spells one less than the run; when the run is not zero it
      keeps the run's width and stays all digits. */
  function SubtractOne(run: string): (r: string)
    requires |run| >= 1 && AllDigits(run)
    ensures IsIntString(r) && IntValue(r) == DigitsValue(run) - 1
    ensures DigitsValue(run) >= 1 ==> |r| == |run| && AllDigits(r)
  {
    SubtractOneFacts(run);
    ZFill(IntToString(DigitsValue(run) - 1), |run|)
  }

  lemma SubtractOneFacts(run: string)
    requires |run| >= 1 && AllDigits(run)
    ensures IsIntString(ZFill(IntToString(DigitsValue(run) - 1), |run|))
    ensures IntValue(ZFill(IntToString(DigitsValue(run) - 1), |run|)) == DigitsValue(run) - 1
    ensures DigitsValue(run) >= 1 ==> |ZFill(IntToString(DigitsValue(run) - 1), |run|)| == |run|
    ensures DigitsValue(run) >= 1 ==> AllDigits(ZFill(IntToString(DigitsValue(run) - 1), |run|))
  {
    var n := DigitsValue(run) - 1;
    IntToStringValue(n);
    ZFillKeepsValue(IntToString(n), |run|);
    if n >= 0 {
      DigitsValueBound(run);
      NatToStringLength(n, |run|);
    }
  }

  /** A run of zeros has no predecessor of the same width: the result is
      "-1" padded to the run's width, and `zfill` puts the padding after the
      sign, so "0" and "00" become "-1" while "000" becomes "-01". */
  lemma SubtractOneFromZero(run: string)
    requires |run| >= 1 && AllDigits(run) && DigitsValue(run) == 0
    ensures SubtractOne(run) == if |run| <= 2 then "-1" else "-" + Zeros(|run| - 2) + "1"
  {
    var minusOne := IntToString(-1);
    assert minusOne == "-1" by {
      assert NatToString(1) == [DigitChar(1)];
    }
    assert SubtractOne(run) == ZFill(minusOne, |run|);
    if |run| > 2 {
      assert ZFill(minusOne, |run|) == [minusOne[0]] + Zeros(|run| - 2) + minusOne[1..];
    }
  }

  /** A folder name cut into what `re.sub(r'\d+', ...)` sees: maximal digit
      runs and the single characters between them. */
  datatype Segment = Run(digits: string) | Other(c: char)

  function SegmentText(seg: Segment): string
  {
    match seg
    case Run(d) => d
    case Other(c) => [c]
  }

  function Concat(segs: seq<Segment>): string
  {
    if |segs| == 0 then "" else SegmentText(segs[0]) + Concat(segs[1..])
  }

  /** Runs are non-empty digit strings, other characters are not digits,
      and no run directly follows another (each run is maximal). */
  predicate Tokenized(segs: seq<Segment>)
  {
    (forall k :: 0 <= k < |segs| ==>
       match segs[k]
       case Run(d) => |d| >= 1 && AllDigits(d)
       case Other(c) => !IsDigit(c))
    && forall k :: 0 <= k < |segs| - 1 ==> !(segs[k].Run? && segs[k + 1].Run?)
  }

  function Segments(s: string): (segs: seq<Segment>)
    ensures |segs| > 0 <==> |s| > 0
    ensures |s| > 0 ==> (segs[0].Run? <==> IsDigit(s[0]))
    decreases |s|
  {
    if |s| == 0 then []
    else if IsDigit(s[0]) then
      var k := LeadingDigits(s);
      [Run(s[..k])] + Segments(s[k..])
    else [Other(s[0])] + Segments(s[1..])
  }

  /** Cutting a name into segments loses nothing, and the cut is the one the
      regular expression makes. */
  lemma SegmentsSpell(s: string)
    ensures Concat(Segments(s)) == s
    ensures Tokenized(Segments(s))
  {
    SegmentsConcat(s);
    SegmentsTokenized(s);
  }

  lemma {:induction false} SegmentsConcat(s: string)
    ensures Concat(Segments(s)) == s
    decreases |s|
  {
    if |s| > 0 {
      if IsDigit(s[0]) {
        var k := LeadingDigits(s);
        SegmentsConcat(s[k..]);
        ConcatCons(Run(s[..k]), Segments(s[k..]));
        assert s[..k] + s[k..] == s;
      } else {
        SegmentsConcat(s[1..]);
        ConcatCons(Other(s[0]), Segments(s[1..]));
        assert [s[0]] + s[1..] == s;
      }
    }
  }

  lemma {:induction false} SegmentsTokenized(s: string)
    ensures Tokenized(Segments(s))
    decreases |s|
  {
    if |s| > 0 {
      if IsDigit(s[0]) {
        var k := LeadingDigits(s);
        LeadingDigitsRun(s);
        SegmentsTokenized(s[k..]);
        assert k < |s| ==> !IsDigit(s[k]);
        TokenizedCons(Run(s[..k]), Segments(s[k..]));
      } else {
        SegmentsTokenized(s[1..]);
        TokenizedCons(Other(s[0]), Segments(s[1..]));
      }
    }
  }

  lemma ConcatCons(seg: Segment, rest: seq<Segment>)
    ensures Concat([seg] + rest) == SegmentText(seg) + Concat(rest)
  {
    assert ([seg] + rest)[1..] == rest;
  }

  /** One well-formed segment in front of a tokenized list, not a run
      before a run. */
  lemma TokenizedCons(seg: Segment, rest: seq<Segment>)
    requires Tokenized(rest)
    requires match seg
             case Run(d) => |d| >= 1 && AllDigits(d)
             case Other(c) => !IsDigit(c)
    requires |rest| > 0 && seg.Run? ==> !rest[0].Run?
    ensures Tokenized([seg] + rest)
  {
    var segs := [seg] + rest;
    forall k | 1 <= k < |segs|
      ensures segs[k] == rest[k - 1]
    {
    }
  }

  function Decrement(seg: Segment): string
    requires seg.Run? ==> |seg.digits| >= 1 && AllDigits(seg.digits)
  {
    match seg
    case Run(d) => SubtractOne(d)
    case Other(c) => [c]
  }

  function ConcatDecremented(segs: seq<Segment>): string
    requires Tokenized(segs)
  {
    if |segs| == 0 then "" else Decrement(segs[0]) + ConcatDecremented(segs[1..])
  }

  /** `re.sub(r'\d+', subtract_one, last_folder)`. */
  function PreviousFolder(name: string): string
  {
    SegmentsSpell(name);
    ConcatDecremented(Segments(name))
  }

  /** No run of the name is all zeros. */
  predicate NoZeroRun(segs: seq<Segment>)
  {
    forall k :: 0 <= k < |segs| && segs[k].Run? && AllDigits(segs[k].digits) ==> DigitsValue(segs[k].digits) >= 1
  }

  lemma {:induction false} DecrementAligned(segs: seq<Segment>)
    requires Tokenized(segs) && NoZeroRun(segs)
    ensures |ConcatDecremented(segs)| == |Concat(segs)|
    ensures forall i :: 0 <= i < |Concat(segs)| ==>
              (IsDigit(Concat(segs)[i]) ==> IsDigit(ConcatDecremented(segs)[i]))
              && (!IsDigit(Concat(segs)[i]) ==> ConcatDecremented(segs)[i] == Concat(segs)[i])
  {
    if |segs| > 0 {
      var rest := segs[1..];
      assert Tokenized(rest) && NoZeroRun(rest) by {
        assert forall k :: 0 <= k < |rest| ==> rest[k] == segs[k + 1];
      }
      DecrementAligned(rest);
      var a, b := SegmentText(segs[0]), Decrement(segs[0]);
      assert |a| == |b|;
      assert forall i :: 0 <= i < |a| ==> (IsDigit(a[i]) ==> IsDigit(b[i])) && (!IsDigit(a[i]) ==> b[i] == a[i]);
    }
  }

  /** When no number in the name is zero, the previous folder's name has the
      same length, keeps every non-digit character in place and has digits
      exactly where the name has them. */
  lemma PreviousFolderKeepsLayout(name: string)
    requires NoZeroRun(Segments(name))
    ensures |PreviousFolder(name)| == |name|
    ensures forall i :: 0 <= i < |name| ==>
              (IsDigit(name[i]) ==> IsDigit(PreviousFolder(name)[i]))
              && (!IsDigit(name[i]) ==> PreviousFolder(name)[i] == name[i])
  {
    SegmentsSpell(name);
    DecrementAligned(Segments(name));
  }

  /** Digits from any script count, as they do for `\d` and `int()`: the
      fullwidth "第１２話" (chapter 12) becomes "第11話", the new number being
      written in ASCII digits by `str()`. */
  lemma PreviousFolderWideDigits()
    ensures PreviousFolder("\U{7B2C}\U{FF11}\U{FF12}\U{8A71}") == "\U{7B2C}11\U{8A71}"
  {
    var name := "\U{7B2C}\U{FF11}\U{FF12}\U{8A71}";
    var run := "\U{FF11}\U{FF12}";
    var tail := name[1..];
    assert tail[..2] == run && tail[2..] == name[3..];
    LeadingDigitsAt(tail, 2);
    assert Segments(name[3..]) == [Other(name[3])] by {
      assert name[3..][1..] == [];
    }
    assert Segments(tail) == [Run(run), Other(name[3])];
    assert Segments(name) == [Other(name[0]), Run(run), Other(name[3])];
    assert DigitsValue(run) == 12;
    assert NatToString(11) == "11";
  }
}

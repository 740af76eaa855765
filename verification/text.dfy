/** String vocabulary shared by the OCR and translation models: Unicode
    decimal digits, Python's `str()`, `int()`, `zfill`, `strip`, `in`
    (substring) and space-joined lists. Strings are `seq<char>`. */
module Text {

  /** The first code point of the block of ten decimal digits (Unicode
      general category Nd, version 15.0) that code point `n` would fall in:
      the last such block starting at or below `n`. Every Nd block runs from
      its zero to its nine in ten consecutive code points. */
  function DigitBlockZero(n: int): (z: int)
    ensures z <= n || n < 0x30
  {
    if n < 0x660 then 0x30
    else if n < 0x6F0 then 0x660
    else if n < 0x7C0 then 0x6F0
    else if n < 0x966 then 0x7C0
    else if n < 0x9E6 then 0x966
    else if n < 0xA66 then 0x9E6
    else if n < 0xAE6 then 0xA66
    else if n < 0xB66 then 0xAE6
    else if n < 0xBE6 then 0xB66
    else if n < 0xC66 then 0xBE6
    else if n < 0xCE6 then 0xC66
    else if n < 0xD66 then 0xCE6
    else if n < 0xDE6 then 0xD66
    else if n < 0xE50 then 0xDE6
    else if n < 0xED0 then 0xE50
    else if n < 0xF20 then 0xED0
    else if n < 0x1040 then 0xF20
    else if n < 0x1090 then 0x1040
    else if n < 0x17E0 then 0x1090
    else if n < 0x1810 then 0x17E0
    else if n < 0x1946 then 0x1810
    else if n < 0x19D0 then 0x1946
    else if n < 0x1A80 then 0x19D0
    else if n < 0x1A90 then 0x1A80
    else if n < 0x1B50 then 0x1A90
    else if n < 0x1BB0 then 0x1B50
    else if n < 0x1C40 then 0x1BB0
    else if n < 0x1C50 then 0x1C40
    else if n < 0xA620 then 0x1C50
    else if n < 0xA8D0 then 0xA620
    else if n < 0xA900 then 0xA8D0
    else if n < 0xA9D0 then 0xA900
    else if n < 0xA9F0 then 0xA9D0
    else if n < 0xAA50 then 0xA9F0
    else if n < 0xABF0 then 0xAA50
    else if n < 0xFF10 then 0xABF0
    else if n < 0x104A0 then 0xFF10
    else if n < 0x10D30 then 0x104A0
    else if n < 0x11066 then 0x10D30
    else if n < 0x110F0 then 0x11066
    else if n < 0x11136 then 0x110F0
    else if n < 0x111D0 then 0x11136
    else if n < 0x112F0 then 0x111D0
    else if n < 0x11450 then 0x112F0
    else if n < 0x114D0 then 0x11450
    else if n < 0x11650 then 0x114D0
    else if n < 0x116C0 then 0x11650
    else if n < 0x11730 then 0x116C0
    else if n < 0x118E0 then 0x11730
    else if n < 0x11950 then 0x118E0
    else if n < 0x11C50 then 0x11950
    else if n < 0x11D50 then 0x11C50
    else if n < 0x11DA0 then 0x11D50
    else if n < 0x11F50 then 0x11DA0
    else if n < 0x16A60 then 0x11F50
    else if n < 0x16AC0 then 0x16A60
    else if n < 0x16B50 then 0x16AC0
    else if n < 0x1D7CE then 0x16B50
    else if n < 0x1D7D8 then 0x1D7CE
    else if n < 0x1D7E2 then 0x1D7D8
    else if n < 0x1D7EC then 0x1D7E2
    else if n < 0x1D7F6 then 0x1D7EC
    else if n < 0x1E140 then 0x1D7F6
    else if n < 0x1E2F0 then 0x1E140
    else if n < 0x1E4F0 then 0x1E2F0
    else if n < 0x1E950 then 0x1E4F0
    else if n < 0x1FBF0 then 0x1E950
    else 0x1FBF0
  }

  /** Python's `\d` on a `str` and the digits `int()` accepts: any Unicode
      decimal digit, not only '0'-'9'. */
  predicate IsDigit(c: char)
  {
    DigitBlockZero(c as int) <= c as int < DigitBlockZero(c as int) + 10
  }

  predicate AllDigits(s: string) { forall i :: 0 <= i < |s| ==> IsDigit(s[i]) }

  function DigitValue(c: char): (d: nat)
    requires IsDigit(c)
    ensures d < 10
  {
    c as int - DigitBlockZero(c as int)
  }

  function DigitChar(d: nat): (c: char)
    requires d < 10
    ensures IsDigit(c) && DigitValue(c) == d && '0' <= c <= '9'
  {
    ('0' as int + d) as char
  }

  /** `int(s)` for a non-empty run of decimal digits (leading zeros allowed). */
  function DigitsValue(s: string): nat
    requires AllDigits(s)
  {
    if |s| == 0 then 0 else DigitsValue(s[..|s| - 1]) * 10 + DigitValue(s[|s| - 1])
  }

  function Pow10(k: nat): (p: nat)
    ensures p >= 1
  {
    if k == 0 then 1 else 10 * Pow10(k - 1)
  }

  /** `str(n)` for a natural number: its shortest decimal spelling. */
  function NatToString(n: nat): (s: string)
    ensures |s| >= 1 && AllDigits(s)
    ensures n < 10 <==> |s| == 1
  {
    if n < 10 then [DigitChar(n)]
    else NatToString(n / 10) + [DigitChar(n % 10)]
  }

  /** `int(str(n)) == n`, and the spelling has no leading zero. */
  lemma {:induction false} NatToStringValue(n: nat)
    ensures DigitsValue(NatToString(n)) == n
    ensures NatToString(n)[0] == '0' ==> n == 0
  {
    if n >= 10 {
      var prefix := NatToString(n / 10);
      var s := NatToString(n);
      assert s[..|s| - 1] == prefix;
      NatToStringValue(n / 10);
    }
  }

  /** `str(n)` for any integer: a minus sign before the magnitude. */
  function IntToString(n: int): string
  {
    if n < 0 then "-" + NatToString(-n) else NatToString(n)
  }

  /** `int(str(n)) == n`. */
  lemma IntToStringValue(n: int)
    ensures IsIntString(IntToString(n)) && IntValue(IntToString(n)) == n
  {
    if n < 0 {
      NatToStringValue(-n);
      var s := IntToString(n);
      assert s[1..] == NatToString(-n);
      assert !IsDigit(s[0]);
    } else {
      NatToStringValue(n);
    }
  }

  /** The strings `int()` reads back from `IntToString`: digits, optionally
      behind one minus sign. */
  predicate IsIntString(s: string)
  {
    (|s| >= 1 && AllDigits(s)) || (|s| >= 2 && s[0] == '-' && AllDigits(s[1..]))
  }

  function IntValue(s: string): int
    requires IsIntString(s)
  {
    if |s| >= 1 && AllDigits(s) then DigitsValue(s) else -(DigitsValue(s[1..]) as int)
  }

  function Zeros(k: nat): (z: string)
    ensures |z| == k && AllDigits(z)
    ensures forall i :: 0 <= i < k ==> z[i] == '0'
  {
    seq(k, _ => '0')
  }

  /** Python's `str.zfill(width)`: left-pad with zeros to `width`, keeping a
      leading sign in front of the padding. */
  function ZFill(s: string, width: nat): (r: string)
    ensures |r| == if |s| >= width then |s| else width
    ensures AllDigits(s) ==> AllDigits(r)
  {
    if |s| >= width then s
    else if |s| > 0 && (s[0] == '+' || s[0] == '-') then [s[0]] + Zeros(width - |s|) + s[1..]
    else Zeros(width - |s|) + s
  }

  /** Padding never changes the number a string spells. */
  lemma ZFillKeepsValue(s: string, width: nat)
    requires IsIntString(s)
    ensures IsIntString(ZFill(s, width)) && IntValue(ZFill(s, width)) == IntValue(s)
  {
    var r := ZFill(s, width);
    if |s| < width {
      if s[0] == '-' {
        assert !AllDigits(s) by { assert !IsDigit(s[0]); }
        var tail := Zeros(width - |s|) + s[1..];
        assert r == [s[0]] + tail;
        assert r[0] == '-' && r[1..] == tail;
        assert !AllDigits(r) by { assert !IsDigit(r[0]); }
        LeadingZerosKeepValue(width - |s|, s[1..]);
        assert IsIntString(r);
        assert IntValue(r) == -(DigitsValue(tail) as int);
      } else {
        LeadingZerosKeepValue(width - |s|, s);
      }
    }
  }

  lemma {:induction false} LeadingZerosKeepValue(k: nat, s: string)
    requires AllDigits(s)
    ensures AllDigits(Zeros(k) + s)
    ensures DigitsValue(Zeros(k) + s) == DigitsValue(s)
    decreases |s|
  {
    var t := Zeros(k) + s;
    if |s| == 0 {
      assert t == Zeros(k);
      ZerosValue(k);
    } else {
      var init := s[..|s| - 1];
      assert t[..|t| - 1] == Zeros(k) + init;
      LeadingZerosKeepValue(k, init);
    }
  }

  lemma {:induction false} ZerosValue(k: nat)
    ensures DigitsValue(Zeros(k)) == 0
  {
    if k > 0 {
      assert Zeros(k)[..k - 1] == Zeros(k - 1);
      ZerosValue(k - 1);
    }
  }

  /** A run of `k` digits is worth less than 10^k. */
  lemma {:induction false} DigitsValueBound(s: string)
    requires AllDigits(s)
    ensures DigitsValue(s) < Pow10(|s|)
    decreases |s|
  {
    if |s| > 0 {
      DigitsValueBound(s[..|s| - 1]);
    }
  }

  /** A number below 10^k is spelled with at most `k` digits. */
  lemma {:induction false} NatToStringLength(n: nat, k: nat)
    requires k >= 1 && n < Pow10(k)
    ensures |NatToString(n)| <= k
    decreases k
  {
    if n >= 10 {
      NatToStringLength(n / 10, k - 1);
    }
  }

  /** Length of the run of digits `\d+` matches at the start of `s`. */
  function LeadingDigits(s: string): (n: nat)
    ensures n <= |s|
    ensures |s| > 0 && IsDigit(s[0]) ==> n >= 1
  {
    if |s| == 0 || !IsDigit(s[0]) then 0 else 1 + LeadingDigits(s[1..])
  }

  /** The run `LeadingDigits` measures is all digits and cannot be
      extended. */
  lemma {:induction false} LeadingDigitsRun(s: string)
    ensures forall i :: 0 <= i < LeadingDigits(s) ==> IsDigit(s[i])
    ensures LeadingDigits(s) < |s| ==> !IsDigit(s[LeadingDigits(s)])
  {
    if |s| > 0 && IsDigit(s[0]) {
      LeadingDigitsRun(s[1..]);
      assert forall i :: 1 <= i <= |s| - 1 ==> s[i] == s[1..][i - 1];
    }
  }

  /** The digit run at the start of `s` is exactly `d` long. */
  lemma LeadingDigitsAt(s: string, d: nat)
    requires d <= |s| && AllDigits(s[..d])
    requires d < |s| ==> !IsDigit(s[d])
    ensures LeadingDigits(s) == d
  {
    assert forall k :: 0 <= k < d ==> s[..d][k] == s[k];
    LeadingDigitsRun(s);
  }

  /** Python's `str.isspace()` for one character (the characters `strip()`
      removes and regex `\s` matches). */
  predicate IsSpace(c: char)
  {
    c == ' ' || c == '\t' || c == '\n' || c == '\r' || c == '\U{B}' || c == '\U{C}'
    || ('\U{1C}' <= c <= '\U{1F}') || c == '\U{85}' || c == '\U{A0}' || c == '\U{1680}'
    || ('\U{2000}' <= c <= '\U{200A}') || c == '\U{2028}' || c == '\U{2029}' || c == '\U{202F}'
    || c == '\U{205F}' || c == '\U{3000}'
  }

  /** Number of leading whitespace characters. */
  function LeadingSpaces(s: string): (n: nat)
    ensures n <= |s|
    ensures forall i :: 0 <= i < n ==> IsSpace(s[i])
    ensures n < |s| ==> !IsSpace(s[n])
  {
    if |s| == 0 || !IsSpace(s[0]) then 0 else 1 + LeadingSpaces(s[1..])
  }

  /** Number of trailing whitespace characters. */
  function TrailingSpaces(s: string): (n: nat)
    ensures n <= |s|
    ensures forall i :: |s| - n <= i < |s| ==> IsSpace(s[i])
    ensures n < |s| ==> !IsSpace(s[|s| - n - 1])
  {
    if |s| == 0 || !IsSpace(s[|s| - 1]) then 0 else 1 + TrailingSpaces(s[..|s| - 1])
  }

  /** Python's `str.strip()`: the longest infix that neither starts nor ends
      with whitespace, after removing only whitespace from both ends. */
  function Strip(s: string): (r: string)
    ensures exists i, j :: 0 <= i <= j <= |s| && r == s[i..j]
                           && (forall k :: 0 <= k < i ==> IsSpace(s[k]))
                           && (forall k :: j <= k < |s| ==> IsSpace(s[k]))
    ensures |r| > 0 ==> !IsSpace(r[0]) && !IsSpace(r[|r| - 1])
  {
    var i := LeadingSpaces(s);
    var rest := s[i..];
    var n := TrailingSpaces(rest);
    var r := rest[..|rest| - n];
    assert r == s[i..i + |rest| - n];
    r
  }

  predicate AllSpaces(s: string) { forall i :: 0 <= i < |s| ==> IsSpace(s[i]) }

  lemma AllSpacesConcat(x: string, y: string)
    requires AllSpaces(x) && AllSpaces(y)
    ensures AllSpaces(x + y)
  {
    assert forall k :: |x| <= k < |x + y| ==> (x + y)[k] == y[k - |x|];
  }

  lemma LeadingSpacesAt(s: string, i: int)
    requires 0 <= i <= |s| && AllSpaces(s[..i])
    requires i < |s| ==> !IsSpace(s[i])
    ensures LeadingSpaces(s) == i
  {
    assert forall k :: 0 <= k < i ==> s[..i][k] == s[k];
  }

  lemma TrailingSpacesAt(s: string, j: int)
    requires 0 <= j <= |s| && AllSpaces(s[j..])
    requires 0 < j ==> !IsSpace(s[j - 1])
    ensures TrailingSpaces(s) == |s| - j
  {
    assert forall k :: j <= k < |s| ==> s[j..][k - j] == s[k];
  }

  /** `strip()` has only one possible result: any infix bounded by
      whitespace-only ends that neither starts nor ends with whitespace. */
  lemma StripUnique(s: string, i: int, j: int)
    requires 0 <= i <= j <= |s|
    requires AllSpaces(s[..i]) && AllSpaces(s[j..])
    requires i < j ==> !IsSpace(s[i]) && !IsSpace(s[j - 1])
    ensures Strip(s) == s[i..j]
  {
    if i < j {
      LeadingSpacesAt(s, i);
      var rest := s[i..];
      assert rest[j - i..] == s[j..];
      assert rest[j - i - 1] == s[j - 1];
      TrailingSpacesAt(rest, j - i);
      assert rest[..j - i] == s[i..j];
    } else {
      assert s[..i] + s[j..] == s;
      AllSpacesConcat(s[..i], s[j..]);
      assert s[..|s|] == s;
      LeadingSpacesAt(s, |s|);
    }
  }

  /** Where `strip()` cuts: whitespace-only ends around an infix that
      neither starts nor ends with whitespace. */
  lemma StripBounds(t: string) returns (i: int, j: int)
    ensures 0 <= i <= j <= |t| && Strip(t) == t[i..j]
    ensures AllSpaces(t[..i]) && AllSpaces(t[j..])
    ensures i < j ==> !IsSpace(t[i]) && !IsSpace(t[j - 1])
  {
    i := LeadingSpaces(t);
    var rest := t[i..];
    j := |t| - TrailingSpaces(rest);
    assert forall k :: 0 <= k < i ==> t[..i][k] == t[k];
    assert forall k :: 0 <= k < |t| - j ==> t[j..][k] == rest[j - i + k];
    if i < j {
      assert t[j - 1] == rest[j - 1 - i];
    }
  }

  /** Whitespace added around a string is removed again by `strip()`. */
  lemma StripPadded(a: string, t: string, b: string)
    requires AllSpaces(a) && AllSpaces(b)
    ensures Strip(a + t + b) == Strip(t)
  {
    var i, j := StripBounds(t);
    var u := a + t + b;
    var head, mid, tail := t[..i], t[i..j], t[j..];
    assert t == head + mid + tail;
    Regroup(a, head, mid, tail, b);
    AllSpacesConcat(a, head);
    AllSpacesConcat(tail, b);
    StripSplit(a + head, mid, tail + b);
  }

  lemma Regroup(a: string, h: string, m: string, l: string, b: string)
    ensures a + (h + m + l) + b == (a + h) + m + (l + b)
  {
  }

  lemma StripSplit(x: string, m: string, y: string)
    requires AllSpaces(x) && AllSpaces(y)
    requires |m| > 0 ==> !IsSpace(m[0]) && !IsSpace(m[|m| - 1])
    ensures Strip(x + m + y) == m
  {
    var u := x + m + y;
    assert u[..|x|] == x;
    assert u[|x| + |m|..] == y;
    assert u[|x|..|x| + |m|] == m;
    StripUnique(u, |x|, |x| + |m|);
  }

  /** Python's `a in b` on strings: `a` occurs contiguously in `b`. */
  predicate IsSubstring(a: string, b: string)
  {
    exists k :: 0 <= k <= |b| && a <= b[k..]
  }

  /** `" ".join(ts)`, built from the right end. */
  function JoinSpace(ts: seq<string>): string
  {
    if |ts| == 0 then ""
    else if |ts| == 1 then ts[0]
    else JoinSpace(ts[..|ts| - 1]) + " " + ts[|ts| - 1]
  }

  /** Joining one more string adds a space and that string. */
  lemma JoinSpaceSnoc(ts: seq<string>, t: string)
    requires |ts| > 0
    ensures JoinSpace(ts + [t]) == JoinSpace(ts) + " " + t
  {
    assert (ts + [t])[..|ts|] == ts;
  }

  /** Extending the last string by a space and `u` extends the join the
      same way. */
  lemma JoinSpaceExtendLast(init: seq<string>, last: string, u: string)
    ensures JoinSpace(init + [last + " " + u]) == JoinSpace(init + [last]) + " " + u
  {
    var x := last + " " + u;
    if |init| > 0 {
      JoinSpaceSnoc(init, x);
      JoinSpaceSnoc(init, last);
      var a := JoinSpace(init);
      assert a + " " + x == a + " " + last + " " + u;
    } else {
      assert init + [x] == [x] && init + [last] == [last];
    }
  }

  /** `s.replace("\n", " ")`. */
  function ReplaceNewlines(s: string): (r: string)
    ensures |r| == |s|
    ensures forall i :: 0 <= i < |s| ==> r[i] != '\n'
    ensures forall i :: 0 <= i < |s| && s[i] != '\n' ==> r[i] == s[i]
  {
    seq(|s|, i requires 0 <= i < |s| => if s[i] == '\n' then ' ' else s[i])
  }
}

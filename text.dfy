/**
 * The small pieces of Python string behaviour the bot relies on: decimal
 * digits and `int()` with its digit cap, `str(n)`, `startswith`/`endswith`, `split("/")[-1]`,
 * `str.strip()` and `str.splitlines()`. Digits are the ASCII digits.
 */
module Text {
  import opened Wrappers
  import opened Errors

  predicate IsDigit(c: char) { '0' <= c <= '9' }

  /** The text matches the regular expression `\d+` in full. */
  predicate AllDigits(s: string) {
    |s| > 0 && forall i :: 0 <= i < |s| ==> IsDigit(s[i])
  }

  function DigitValue(c: char): nat
    requires IsDigit(c)
  {
    c as int - '0' as int
  }

  /** `int(s)` for a string of digits (leading zeros allowed). */
  function DigitsValue(s: string): nat
    requires forall i :: 0 <= i < |s| ==> IsDigit(s[i])
  {
    if |s| == 0 then 0
    else DigitsValue(s[..|s| - 1]) * 10 + DigitValue(s[|s| - 1])
  }

  function DigitChar(d: nat): (c: char)
    requires d < 10
    ensures IsDigit(c) && DigitValue(c) == d
  {
    (d + '0' as int) as char
  }

  /** `str(n)` for a non-negative integer: no leading zeros. */
  function NatToString(n: nat): (s: string)
    ensures AllDigits(s)
    ensures s[0] == '0' ==> n == 0 && s == "0"
  {
    if n < 10 then [DigitChar(n)]
    else NatToString(n / 10) + [DigitChar(n % 10)]
  }

  /** `int(str(n)) == n`. */
  lemma {:induction false} DigitsValueOfNatToString(n: nat)
    ensures DigitsValue(NatToString(n)) == n
  {
    var s := NatToString(n);
    if n >= 10 {
      assert s[..|s| - 1] == NatToString(n / 10);
      DigitsValueOfNatToString(n / 10);
    }
  }

  /**
   * CPython's default cap on the number of digits `int()` converts from a
   * string (`sys.get_int_max_str_digits()` since 3.10.7 and 3.11).
   */
  const IntMaxStrDigits: nat := 4300

  /** The text a `\d+` group captures. */
  type Numeral = s: string | AllDigits(s) witness "0"

  /**
   * `int(s)` on a numeral: its value, or the `ValueError` raised for more
   * digits than the cap (leading zeros count).
   */
  function IntOf(s: Numeral): (r: Result<nat, Exc>)
    ensures r.Ok? <==> |s| <= IntMaxStrDigits
    ensures r.Ok? ==> r.value == DigitsValue(s)
    ensures r.Err? ==> r.error == ValueError(DigitLimit)
  {
    if |s| > IntMaxStrDigits then Err(ValueError(DigitLimit)) else Ok(DigitsValue(s))
  }

  /** `int(str(n)) == n` while `str(n)` is within the cap, a `ValueError` beyond it. */
  lemma IntOfNatToString(n: nat)
    ensures IntOf(NatToString(n))
         == if |NatToString(n)| > IntMaxStrDigits then Err(ValueError(DigitLimit)) else Ok(n)
  {
    DigitsValueOfNatToString(n);
  }

  function Pow10(k: nat): nat {
    if k == 0 then 1 else 10 * Pow10(k - 1)
  }

  lemma {:induction false} Pow10AtLeastTen(k: nat)
    requires k >= 1
    ensures Pow10(k) >= 10
  {
    if k > 1 { Pow10AtLeastTen(k - 1); }
  }

  /** `str(n)` has at most `k` digits exactly when `n < 10^k`. */
  lemma {:induction false} NatToStringLength(n: nat, k: nat)
    requires k >= 1
    ensures |NatToString(n)| <= k <==> n < Pow10(k)
  {
    Pow10AtLeastTen(k);
    if n >= 10 {
      assert |NatToString(n)| == |NatToString(n / 10)| + 1;
      if k == 1 {
        assert |NatToString(n / 10)| >= 1;
      } else {
        NatToStringLength(n / 10, k - 1);
        assert n / 10 < Pow10(k - 1) <==> n < 10 * Pow10(k - 1);
      }
    }
  }

  /** A number below 10^14, as every whole-second `timedelta` is, has at most 14 digits. */
  lemma ShortNumeral(n: nat)
    requires n < 100000000000000
    ensures |NatToString(n)| <= 14
  {
    assert Pow10(14) == 100000000000000;
    NatToStringLength(n, 14);
  }

  predicate StartsWith(s: string, prefix: string) {
    |prefix| <= |s| && s[..|prefix|] == prefix
  }

  predicate EndsWith(s: string, suffix: string) {
    |suffix| <= |s| && s[|s| - |suffix|..] == suffix
  }

  /** `s.split(sep)[-1]`: everything after the last `sep`, or all of `s`. */
  function LastSegment(s: string, sep: char): (r: string)
    ensures sep !in r
    ensures |r| <= |s| && r == s[|s| - |r|..]
    ensures |r| < |s| ==> s[|s| - |r| - 1] == sep
  {
    if |s| == 0 then ""
    else if s[|s| - 1] == sep then ""
    else LastSegment(s[..|s| - 1], sep) + [s[|s| - 1]]
  }

  /** The segment after the last separator is exactly what follows it. */
  lemma {:induction false} LastSegmentAfterSeparator(prefix: string, sep: char, tail: string)
    requires sep !in tail
    ensures LastSegment(prefix + [sep] + tail, sep) == tail
  {
    var s := prefix + [sep] + tail;
    if |tail| > 0 {
      assert s[..|s| - 1] == prefix + [sep] + tail[..|tail| - 1];
      LastSegmentAfterSeparator(prefix, sep, tail[..|tail| - 1]);
    }
  }

  /** The characters Python's `str.isspace()` accepts, which `strip()` removes. */
  predicate IsSpace(c: char) {
    c == ' ' || '\t' <= c <= '\r' || '\U{1c}' <= c <= '\U{1f}' || c == '\U{85}' || c == '\U{a0}'
    || c == '\U{1680}' || '\U{2000}' <= c <= '\U{200a}' || c == '\U{2028}' || c == '\U{2029}'
    || c == '\U{202f}' || c == '\U{205f}' || c == '\U{3000}'
  }

  /** The first position from `from` on that does not hold white space. */
  function LeadingEnd(s: string, from: nat): (i: nat)
    requires from <= |s|
    ensures from <= i <= |s|
    ensures forall k :: from <= k < i ==> IsSpace(s[k])
    ensures i == |s| || !IsSpace(s[i])
    decreases |s| - from
  {
    if from < |s| && IsSpace(s[from]) then LeadingEnd(s, from + 1) else from
  }

  /** The end of `s[lo..to]` once the white space at its end is cut off. */
  function TrailingStart(s: string, lo: nat, to: nat): (j: nat)
    requires lo <= to <= |s|
    ensures lo <= j <= to
    ensures forall k :: j <= k < to ==> IsSpace(s[k])
    ensures j == lo || !IsSpace(s[j - 1])
  {
    if lo < to && IsSpace(s[to - 1]) then TrailingStart(s, lo, to - 1) else to
  }

  /**
   * `s.strip()`: the slice of `s` left once the white space at both ends
   * is cut off; it neither starts nor ends with white space.
   */
  function Strip(s: string): (r: string)
    ensures var i := LeadingEnd(s, 0);
      && i + |r| <= |s| && r == s[i..i + |r|]
      && (forall k :: 0 <= k < i ==> IsSpace(s[k]))
      && (forall k :: i + |r| <= k < |s| ==> IsSpace(s[k]))
    ensures r == [] || (!IsSpace(r[0]) && !IsSpace(r[|r| - 1]))
  {
    var i := LeadingEnd(s, 0);
    s[i..TrailingStart(s, i, |s|)]
  }

  /** `strip()` gives the empty string exactly when the text is all white space. */
  lemma StripEmpty(s: string)
    ensures Strip(s) == [] <==> forall k :: 0 <= k < |s| ==> IsSpace(s[k])
  {
    var r, i := Strip(s), LeadingEnd(s, 0);
    if r != [] {
      assert s[i] == r[0];
    }
  }

  /** Text without white space at either end is left alone by `strip()`. */
  lemma StripUnpadded(s: string)
    requires s == [] || (!IsSpace(s[0]) && !IsSpace(s[|s| - 1]))
    ensures Strip(s) == s
  {
  }

  /** The line boundaries of Python's `str.splitlines()`. */
  predicate IsLineBreak(c: char) {
    c == '\n' || c == '\r' || c == '\U{0b}' || c == '\U{0c}' || '\U{1c}' <= c <= '\U{1e}'
    || c == '\U{85}' || c == '\U{2028}' || c == '\U{2029}'
  }

  /** The length of the line break starting at `s[i]` (`\r\n` counts as one). */
  function BreakLength(s: string, i: nat): nat
    requires i < |s| && IsLineBreak(s[i])
  {
    if s[i] == '\r' && i + 1 < |s| && s[i + 1] == '\n' then 2 else 1
  }

  /** The first line of `s` starting at `from`: the index of its break, or `|s|`. */
  function LineEnd(s: string, from: nat): (e: nat)
    requires from <= |s|
    ensures from <= e <= |s|
    ensures e < |s| ==> IsLineBreak(s[e])
    ensures forall k :: from <= k < e ==> !IsLineBreak(s[k])
    decreases |s| - from
  {
    if from == |s| || IsLineBreak(s[from]) then from else LineEnd(s, from + 1)
  }

  /** A line without line breaks. */
  predicate Unbroken(l: string) {
    forall k :: 0 <= k < |l| ==> !IsLineBreak(l[k])
  }

  /** `s[from..].splitlines()`: no empty line after a final break. */
  function SplitLinesFrom(s: string, from: nat): (lines: seq<string>)
    requires from <= |s|
    ensures forall i :: 0 <= i < |lines| ==> Unbroken(lines[i])
    decreases |s| - from
  {
    if from == |s| then []
    else
      var e := LineEnd(s, from);
      assert Unbroken(s[from..e]);
      if e == |s| then [s[from..]]
      else [s[from..e]] + SplitLinesFrom(s, e + BreakLength(s, e))
  }

  function SplitLines(s: string): seq<string> {
    SplitLinesFrom(s, 0)
  }

  /** Joining lines with `\n` and splitting again gives the lines back. */
  lemma {:induction false} SplitLinesOfJoined(lines: seq<string>)
    requires forall l :: l in lines ==> forall c :: c in l ==> !IsLineBreak(c)
    ensures SplitLines(JoinLines(lines)) == lines
  {
    forall i | 0 <= i < |lines|
      ensures Unbroken(lines[i])
    {
      assert lines[i] in lines;
    }
    SplitJoinedFrom(lines, [], 0);
  }

  /** The lines joined, each followed by `\n`. */
  function JoinLines(lines: seq<string>): string {
    if lines == [] then "" else lines[0] + "\n" + JoinLines(lines[1..])
  }

  lemma {:induction false} SplitJoinedFrom(lines: seq<string>, before: string, from: nat)
    requires forall i :: 0 <= i < |lines| ==> Unbroken(lines[i])
    requires from == |before|
    ensures SplitLinesFrom(before + JoinLines(lines), from) == lines
    decreases |lines|
  {
    if lines != [] {
      var l, tail := lines[0], lines[1..];
      var rest := JoinLines(tail);
      var head := before + l + "\n";
      JoinStep(before, lines);
      assert head[from..from + |l|] == l && head[from + |l|] == '\n';
      FirstLine(head, rest, from, l);
      assert forall i :: 0 <= i < |tail| ==> tail[i] == lines[i + 1];
      SplitJoinedFrom(tail, head, from + |l| + 1);
      assert lines == [l] + tail;
    }
  }

  lemma JoinStep(before: string, lines: seq<string>)
    requires lines != []
    ensures before + JoinLines(lines) == (before + lines[0] + "\n") + JoinLines(lines[1..])
  {
    assert JoinLines(lines) == lines[0] + "\n" + JoinLines(lines[1..]);
  }

  /** A line without breaks, then `\n`, is the first line split off from `from`. */
  lemma FirstLine(head: string, rest: string, from: nat, l: string)
    requires |head| == from + |l| + 1 && head[from..from + |l|] == l && head[from + |l|] == '\n'
    requires Unbroken(l)
    ensures SplitLinesFrom(head + rest, from) == [l] + SplitLinesFrom(head + rest, from + |l| + 1)
  {
    var s := head + rest;
    var e := from + |l|;
    forall k | from <= k < e
      ensures !IsLineBreak(s[k])
    {
      assert s[k] == head[k] == l[k - from];
    }
    assert s[e] == '\n';
    LineEndOver(s, from, e);
    assert s[from..e] == head[from..e];
  }

  lemma LineEndOver(s: string, from: nat, e: nat)
    requires from <= e < |s| && IsLineBreak(s[e])
    requires forall k :: from <= k < e ==> !IsLineBreak(s[k])
    ensures LineEnd(s, from) == e
    decreases e - from
  {
    if from < e { LineEndOver(s, from + 1, e); }
  }
}

/**
 * Rate limiting: exponential backoff and the `Retry-After` header of
 * section 7.1.3 of RFC 7231. A hint is either delta-seconds or an
 * IMF-fixdate (section 7.1.1.1 of RFC 7231); the two obsolete date forms
 * are not accepted. Points in time are instants (see module Calendar) and
 * "now" is a parameter instead of a reading of the clock.
 */
module TryAgain {
  import opened Wrappers
  import opened Errors
  import opened Text
  import opened Calendar

  const Minimum: nat := 0
  const BackoffBase: nat := 2

  const WeekdayNames: seq<string> := ["Mon", "Tue", "Wed", "Thu", "Fri", "Sat", "Sun"]
  const MonthNames: seq<string> :=
    ["Jan", "Feb", "Mar", "Apr", "May", "Jun", "Jul", "Aug", "Sep", "Oct", "Nov", "Dec"]

  /** The `_month` table: a month name to its two-digit number. */
  const MonthTable: map<string, string> := map[
    "Jan" := "01", "Feb" := "02", "Mar" := "03", "Apr" := "04", "May" := "05", "Jun" := "06",
    "Jul" := "07", "Aug" := "08", "Sep" := "09", "Oct" := "10", "Nov" := "11", "Dec" := "12"]

  function Power(base: nat, e: nat): nat {
    if e == 0 then 1 else base * Power(base, e - 1)
  }

  /** `backoff(failures)`, in seconds. */
  function Backoff(failures: nat): (seconds: nat)
    ensures seconds > Minimum
  {
    PowerPositive(BackoffBase, failures);
    Power(BackoffBase, failures) + Minimum
  }

  lemma {:induction false} PowerPositive(base: nat, e: nat)
    requires base >= 1
    ensures Power(base, e) >= 1
  {
    if e > 0 { PowerPositive(base, e - 1); }
  }

  /** Each further failure doubles the wait above the minimum. */
  lemma BackoffDoubles(failures: nat)
    ensures Backoff(failures + 1) - Minimum == 2 * (Backoff(failures) - Minimum)
  {
  }

  /** More failures, strictly longer waits. */
  lemma {:induction false} BackoffStrictlyIncreasing(f: nat, g: nat)
    requires f < g
    ensures Minimum < Backoff(f) < Backoff(g)
    decreases g - f
  {
    if f + 1 < g {
      BackoffStrictlyIncreasing(f + 1, g);
    }
  }

  /**
   * What `^...$` must match in full: `$` in Python's `re` also matches just
   * before one final newline, so exactly one final newline is dropped.
   */
  function DropFinalNewline(s: string): (t: string)
    ensures t == s || s == t + "\n"
    ensures t == s <==> |s| == 0 || s[|s| - 1] != '\n'
  {
    if |s| > 0 && s[|s| - 1] == '\n' then s[..|s| - 1] else s
  }

  /** `_month[name]` read as the number `strptime`'s `%m` gives it. */
  function MonthNumber(name: string): nat
    requires name in MonthNames
  {
    assert name in MonthTable;
    DigitsValue(MonthTable[name])
  }

  /** The table knows the twelve month names of the pattern and no other key. */
  lemma MonthTableKeys()
    ensures MonthTable.Keys == set i | 0 <= i < 12 :: MonthNames[i]
  {
    var names := set i | 0 <= i < 12 :: MonthNames[i];
    forall k | k in MonthTable.Keys ensures k in names {
      assert k == MonthNames[0] || k == MonthNames[1] || k == MonthNames[2] || k == MonthNames[3]
          || k == MonthNames[4] || k == MonthNames[5] || k == MonthNames[6] || k == MonthNames[7]
          || k == MonthNames[8] || k == MonthNames[9] || k == MonthNames[10] || k == MonthNames[11];
    }
  }

  /** The i-th month name is month number i + 1. */
  lemma MonthNumberOf(i: nat)
    requires i < 12
    ensures MonthNames[i] in MonthNames && MonthNumber(MonthNames[i]) == i + 1
  {
    assert MonthNames[i] in MonthNames;
    var v := MonthTable[MonthNames[i]];
    assert v == TwoDigits(i + 1) by {
      if i == 0 { assert v == "01"; } else if i == 1 { assert v == "02"; }
      else if i == 2 { assert v == "03"; } else if i == 3 { assert v == "04"; }
      else if i == 4 { assert v == "05"; } else if i == 5 { assert v == "06"; }
      else if i == 6 { assert v == "07"; } else if i == 7 { assert v == "08"; }
      else if i == 8 { assert v == "09"; } else if i == 9 { assert v == "10"; }
      else if i == 10 { assert v == "11"; } else { assert v == "12"; }
    }
    TwoDigitsValue(i + 1);
  }

  /**
   * The groups of `Www, DD Mon YYYY HH:MM:SS GMT`, matched in full; the
   * weekday only has to be one of the seven names.
   */
  function MatchImfFixdate(t: string): Option<DateTime> {
    if && |t| == 29 && t[..3] in WeekdayNames && t[3..5] == ", "
       && AllDigits(t[5..7]) && t[7] == ' ' && t[8..11] in MonthNames && t[11] == ' '
       && AllDigits(t[12..16]) && t[16] == ' '
       && AllDigits(t[17..19]) && t[19] == ':' && AllDigits(t[20..22]) && t[22] == ':'
       && AllDigits(t[23..25]) && t[25..] == " GMT"
    then Some(DateTime(DigitsValue(t[12..16]), MonthNumber(t[8..11]), DigitsValue(t[5..7]),
                       DigitsValue(t[17..19]), DigitsValue(t[20..22]), DigitsValue(t[23..25])))
    else None
  }

  /**
   * `parse_retry_after(hint, failures)` read at the instant `now`:
   * `Ok(Some(t))` is the deadline `t`, `Ok(None)` the `None` it returns for
   * a hint of neither form. It raises `ValueError` for an impossible date
   * or a delay longer than `int()`'s digit cap, and `OverflowError` for a
   * deadline past `datetime.max`. The deadline is never before now.
   */
  function ParseRetryAfter(hint: string, failures: nat, now: int): (r: Result<Option<int>, Exc>)
    ensures r.Ok? && r.value.Some? ==> now <= r.value.value <= MaxInstant
    ensures r.Err? ==> r.error in {ValueError(InvalidDate), ValueError(DigitLimit), OverflowError}
  {
    var t := DropFinalNewline(hint);
    if AllDigits(t) then
      var seconds :- IntOf(t);
      var deadline :- AddSeconds(now, seconds);
      Ok(Some(deadline))
    else match MatchImfFixdate(t)
      case None => Ok(None)
      case Some(date) =>
        if !IsValid(date) then Err(ValueError(InvalidDate))
        else if InstantOf(date) < now then
          var deadline :- AddSeconds(now, Backoff(failures));
          Ok(Some(deadline))
        else
          var deadline :- AddSeconds(InstantOf(date), 1);
          Ok(Some(deadline))
  }

  function TwoDigits(n: nat): (s: string)
    requires n < 100
    ensures |s| == 2
  {
    [DigitChar(n / 10), DigitChar(n % 10)]
  }

  function FourDigits(n: nat): (s: string)
    requires n < 10000
    ensures |s| == 4
  {
    TwoDigits(n / 100) + TwoDigits(n % 100)
  }

  /** The fields of a datetime fit the fixed-width IMF-fixdate layout. */
  predicate Formattable(d: DateTime) {
    d.day < 100 && 1 <= d.month <= 12 && d.year < 10000 && d.hour < 100 && d.minute < 100 && d.second < 100
  }

  /** The fixed-width fields of an IMF-fixdate put in their places. */
  function Assemble(w: string, dd: string, m: string, yyyy: string, hh: string, mm: string, ss: string): string
    requires |w| == 3 && |dd| == 2 && |m| == 3 && |yyyy| == 4 && |hh| == 2 && |mm| == 2 && |ss| == 2
  {
    [w[0], w[1], w[2], ',', ' ', dd[0], dd[1], ' ', m[0], m[1], m[2], ' ',
     yyyy[0], yyyy[1], yyyy[2], yyyy[3], ' ', hh[0], hh[1], ':', mm[0], mm[1], ':', ss[0], ss[1],
     ' ', 'G', 'M', 'T']
  }

  lemma AssembledDate(w: string, dd: string, m: string, yyyy: string, hh: string, mm: string, ss: string)
    requires |w| == 3 && |dd| == 2 && |m| == 3 && |yyyy| == 4 && |hh| == 2 && |mm| == 2 && |ss| == 2
    ensures var s := Assemble(w, dd, m, yyyy, hh, mm, ss);
      && |s| == 29 && s[..3] == w && s[3..5] == ", " && s[5..7] == dd && s[7] == ' ' && s[8..11] == m && s[11] == ' '
  {
    var s := Assemble(w, dd, m, yyyy, hh, mm, ss);
    assert s[..3] == w by {
      assert s[0] == w[0] && s[1] == w[1] && s[2] == w[2];
      assert s[..3] == [s[0], s[1], s[2]] && w == [w[0], w[1], w[2]];
    }
    assert s[3..5] == ", " by {
      assert s[3] == ',' && s[4] == ' ';
      assert s[3..5] == [s[3], s[4]] && ", " == [',', ' '];
    }
    assert s[5..7] == dd by {
      assert s[5] == dd[0] && s[6] == dd[1];
      assert s[5..7] == [s[5], s[6]] && dd == [dd[0], dd[1]];
    }
    assert s[8..11] == m by {
      assert s[8] == m[0] && s[9] == m[1] && s[10] == m[2];
      assert s[8..11] == [s[8], s[9], s[10]] && m == [m[0], m[1], m[2]];
    }
  }

  lemma AssembledTime(w: string, dd: string, m: string, yyyy: string, hh: string, mm: string, ss: string)
    requires |w| == 3 && |dd| == 2 && |m| == 3 && |yyyy| == 4 && |hh| == 2 && |mm| == 2 && |ss| == 2
    ensures var s := Assemble(w, dd, m, yyyy, hh, mm, ss);
      && |s| == 29 && s[12..16] == yyyy && s[16] == ' '
      && s[17..19] == hh && s[19] == ':' && s[20..22] == mm && s[22] == ':'
      && s[23..25] == ss && s[25..] == " GMT"
  {
    assert yyyy == [yyyy[0], yyyy[1], yyyy[2], yyyy[3]];
    assert hh == [hh[0], hh[1]] && mm == [mm[0], mm[1]] && ss == [ss[0], ss[1]];
  }

  /** An IMF-fixdate as a server writes it, with any weekday name. */
  function FormatImfFixdate(weekday: nat, d: DateTime): (s: string)
    requires weekday < 7 && Formattable(d)
  {
    Assemble(WeekdayNames[weekday], TwoDigits(d.day), MonthNames[d.month - 1], FourDigits(d.year),
             TwoDigits(d.hour), TwoDigits(d.minute), TwoDigits(d.second))
  }

  lemma TwoDigitsValue(n: nat)
    requires n < 100
    ensures AllDigits(TwoDigits(n)) && DigitsValue(TwoDigits(n)) == n
  {
    var s := TwoDigits(n);
    assert s[..1] == [s[0]];
    assert [s[0]][..0] == [];
    assert DigitsValue(s[..1]) == n / 10;
  }

  lemma FourDigitsValue(n: nat)
    requires n < 10000
    ensures AllDigits(FourDigits(n)) && DigitsValue(FourDigits(n)) == n
  {
    var s := FourDigits(n);
    TwoDigitsValue(n / 100);
    TwoDigitsValue(n % 100);
    var hi, lo := TwoDigits(n / 100), TwoDigits(n % 100);
    assert s[..3] == hi + [lo[0]];
    assert s[..3][..2] == hi;
    assert lo[..1] == [lo[0]];
  }

  lemma FormatDateLayout(weekday: nat, d: DateTime)
    requires weekday < 7 && Formattable(d)
    ensures var s := FormatImfFixdate(weekday, d);
      && |s| == 29 && s[..3] == WeekdayNames[weekday] && s[3..5] == ", "
      && s[5..7] == TwoDigits(d.day) && s[7] == ' ' && s[8..11] == MonthNames[d.month - 1] && s[11] == ' '
  {
    assert |MonthNames[d.month - 1]| == 3 && |WeekdayNames[weekday]| == 3;
    AssembledDate(WeekdayNames[weekday], TwoDigits(d.day), MonthNames[d.month - 1], FourDigits(d.year),
                  TwoDigits(d.hour), TwoDigits(d.minute), TwoDigits(d.second));
  }

  lemma FormatTimeLayout(weekday: nat, d: DateTime)
    requires weekday < 7 && Formattable(d)
    ensures var s := FormatImfFixdate(weekday, d);
      && |s| == 29 && s[12..16] == FourDigits(d.year) && s[16] == ' '
      && s[17..19] == TwoDigits(d.hour) && s[19] == ':' && s[20..22] == TwoDigits(d.minute) && s[22] == ':'
      && s[23..25] == TwoDigits(d.second) && s[25..] == " GMT"
  {
    assert |MonthNames[d.month - 1]| == 3 && |WeekdayNames[weekday]| == 3;
    AssembledTime(WeekdayNames[weekday], TwoDigits(d.day), MonthNames[d.month - 1], FourDigits(d.year),
                  TwoDigits(d.hour), TwoDigits(d.minute), TwoDigits(d.second));
  }

  /** Matching a formatted IMF-fixdate gives its fields back: the weekday is ignored. */
  lemma {:induction false} MatchFormatted(weekday: nat, d: DateTime)
    requires weekday < 7 && Formattable(d)
    ensures MatchImfFixdate(FormatImfFixdate(weekday, d)) == Some(d)
  {
    FormatDateLayout(weekday, d);
    FormatTimeLayout(weekday, d);
    TwoDigitsValue(d.day);
    TwoDigitsValue(d.hour);
    TwoDigitsValue(d.minute);
    TwoDigitsValue(d.second);
    FourDigitsValue(d.year);
    MonthNumberOf(d.month - 1);
  }

  /**
   * A hint of digits alone is that many seconds from now, whatever the
   * failure count: `int()` refuses it when it is longer than the digit cap
   * (so `n >= 10^4300`), and a deadline past `datetime.max` overflows.
   */
  lemma {:induction false} DelaySecondsHint(n: nat, failures: nat, now: int)
    ensures ParseRetryAfter(NatToString(n), failures, now)
         == if |NatToString(n)| > IntMaxStrDigits then Err(ValueError(DigitLimit))
            else if Overflows(now, n) then Err(OverflowError)
            else Ok(Some(now + n * MicrosPerSecond))
  {
    var s := NatToString(n);
    assert DropFinalNewline(s) == s;
    IntOfNatToString(n);
  }

  /**
   * Leading zeros and one trailing newline are allowed by `^\d+$` and
   * `int()`; the zeros count towards the digit cap.
   */
  lemma DelaySecondsHintPadded(digits: string, failures: nat, now: int)
    requires AllDigits(digits)
    ensures var n := DigitsValue(digits);
      && ParseRetryAfter(digits, failures, now) == ParseRetryAfter(digits + "\n", failures, now)
      && ParseRetryAfter(digits, failures, now)
         == if |digits| > IntMaxStrDigits then Err(ValueError(DigitLimit))
            else if Overflows(now, n) then Err(OverflowError)
            else Ok(Some(now + n * MicrosPerSecond))
  {
    NewlineDropped(digits);
    DigitBranch(digits, digits, failures, now);
    DigitBranch(digits + "\n", digits, failures, now);
  }

  lemma NewlineDropped(digits: string)
    requires AllDigits(digits)
    ensures DropFinalNewline(digits) == digits && DropFinalNewline(digits + "\n") == digits
  {
    assert (digits + "\n")[..|digits|] == digits;
  }

  /** A hint whose text before a final newline is all digits: the delay branch. */
  lemma DigitBranch(hint: string, t: string, failures: nat, now: int)
    requires DropFinalNewline(hint) == t && AllDigits(t)
    ensures ParseRetryAfter(hint, failures, now)
         == if |t| > IntMaxStrDigits then Err(ValueError(DigitLimit))
            else if Overflows(now, DigitsValue(t)) then Err(OverflowError)
            else Ok(Some(now + DigitsValue(t) * MicrosPerSecond))
  {
  }

  /** 4301 zeros: a delay of nothing, but one digit too many for `int()`. */
  lemma ZerosPastDigitCap(failures: nat, now: int)
    ensures ParseRetryAfter(seq(IntMaxStrDigits + 1, _ => '0'), failures, now) == Err(ValueError(DigitLimit))
  {
    DelaySecondsHintPadded(seq(IntMaxStrDigits + 1, _ => '0'), failures, now);
  }

  /** A delay that fits in a `timedelta` is far inside the digit cap. */
  lemma NoOverflowWithinDigitCap(now: int, n: nat)
    requires !Overflows(now, n)
    ensures |NatToString(n)| <= IntMaxStrDigits
  {
    ShortNumeral(n);
  }

  /**
   * A delay of 300000000000 seconds (about 9500 years) or more, read in
   * 2026 or later, passes the year 9999: `OverflowError`, not a deadline,
   * although `timedelta` itself could hold it.
   */
  lemma CenturiesOfDelayOverflow(n: nat, failures: nat, now: int)
    requires 300000000000 <= n <= MaxDeltaSeconds
    requires InstantOf(DateTime(2026, 1, 1, 0, 0, 0)) <= now
    ensures ParseRetryAfter(NatToString(n), failures, now) == Err(OverflowError)
  {
    ShortNumeral(n);
    DelaySecondsHint(n, failures, now);
  }

  /** A well-formed date already in the past: `backoff(failures)` from now, within `datetime`'s range. */
  lemma {:induction false} PastDateHint(weekday: nat, d: DateTime, failures: nat, now: int)
    requires weekday < 7 && Formattable(d) && IsValid(d)
    requires InstantOf(d) < now
    ensures ParseRetryAfter(FormatImfFixdate(weekday, d), failures, now)
         == if Overflows(now, Backoff(failures)) then Err(OverflowError)
            else Ok(Some(now + Backoff(failures) * MicrosPerSecond))
  {
    HintIsDate(weekday, d);
  }

  /**
   * A well-formed date not before now (equal included): that date plus one
   * second, except for the last second `datetime` holds, which overflows.
   */
  lemma {:induction false} FutureDateHint(weekday: nat, d: DateTime, failures: nat, now: int)
    requires weekday < 7 && Formattable(d) && IsValid(d)
    requires now <= InstantOf(d)
    ensures ParseRetryAfter(FormatImfFixdate(weekday, d), failures, now)
         == if d == LastSecond then Err(OverflowError) else Ok(Some(InstantOf(d) + MicrosPerSecond))
  {
    FutureDateDeadline(weekday, d, failures, now);
    OneSecondPastOverflows(d);
  }

  lemma FutureDateDeadline(weekday: nat, d: DateTime, failures: nat, now: int)
    requires weekday < 7 && Formattable(d) && IsValid(d)
    requires now <= InstantOf(d)
    ensures ParseRetryAfter(FormatImfFixdate(weekday, d), failures, now)
         == if Overflows(InstantOf(d), 1) then Err(OverflowError) else Ok(Some(InstantOf(d) + MicrosPerSecond))
  {
    HintIsDate(weekday, d);
    DateBranch(FormatImfFixdate(weekday, d), d, failures, now);
  }

  /** A hint read as the valid date `d` and not yet past: the deadline is one second after it. */
  lemma DateBranch(t: string, d: DateTime, failures: nat, now: int)
    requires DropFinalNewline(t) == t && !AllDigits(t) && MatchImfFixdate(t) == Some(d) && IsValid(d)
    requires now <= InstantOf(d)
    ensures ParseRetryAfter(t, failures, now)
         == if Overflows(InstantOf(d), 1) then Err(OverflowError) else Ok(Some(InstantOf(d) + MicrosPerSecond))
  {
  }

  /** One second after a valid instant overflows exactly at the last second of year 9999. */
  lemma OneSecondPastOverflows(d: DateTime)
    requires IsValid(d) && d.year <= 9999
    ensures Overflows(InstantOf(d), 1) <==> d == LastSecond
  {
    NotAfterLastSecond(d);
    assert MicrosPerSecond == 1000000;
  }

  /** `Fri, 31 Dec 9999 23:59:59 GMT`, read before it has passed, raises `OverflowError`. */
  lemma LastSecondOverflows(failures: nat, now: int)
    requires now <= InstantOf(LastSecond)
    ensures ParseRetryAfter(FormatImfFixdate(4, LastSecond), failures, now) == Err(OverflowError)
  {
    FutureDateHint(4, LastSecond, failures, now);
  }

  /** A date the pattern accepts but the calendar does not (31 February, hour 24, ...) raises. */
  lemma {:induction false} ImpossibleDateHint(weekday: nat, d: DateTime, failures: nat, now: int)
    requires weekday < 7 && Formattable(d) && !IsValid(d)
    ensures ParseRetryAfter(FormatImfFixdate(weekday, d), failures, now) == Err(ValueError(InvalidDate))
  {
    HintIsDate(weekday, d);
  }

  /** The weekday name is never checked against the date. */
  lemma {:induction false} WeekdayIgnored(w1: nat, w2: nat, d: DateTime, failures: nat, now: int)
    requires w1 < 7 && w2 < 7 && Formattable(d)
    ensures ParseRetryAfter(FormatImfFixdate(w1, d), failures, now)
         == ParseRetryAfter(FormatImfFixdate(w2, d), failures, now)
  {
    HintIsDate(w1, d);
    HintIsDate(w2, d);
  }

  lemma HintIsDate(weekday: nat, d: DateTime)
    requires weekday < 7 && Formattable(d)
    ensures DropFinalNewline(FormatImfFixdate(weekday, d)) == FormatImfFixdate(weekday, d)
    ensures !AllDigits(FormatImfFixdate(weekday, d))
    ensures MatchImfFixdate(FormatImfFixdate(weekday, d)) == Some(d)
  {
    var s := FormatImfFixdate(weekday, d);
    assert s[3] == ',';
    assert s[|s| - 1] == 'T';
    MatchFormatted(weekday, d);
  }

  /**
   * A hint of neither form gives `None`, with no fallback of its own: the
   * empty hint, and the RFC 850 and asctime dates that RFC 7231 also allows.
   */
  lemma UnparsedHints(failures: nat, now: int)
    ensures ParseRetryAfter("", failures, now) == Ok(None)
    ensures ParseRetryAfter("Sunday, 06-Nov-94 08:49:37 GMT", failures, now) == Ok(None)
    ensures ParseRetryAfter("Sun Nov  6 08:49:37 1994", failures, now) == Ok(None)
  {
    assert !AllDigits("Sunday, 06-Nov-94 08:49:37 GMT") by {
      assert !IsDigit("Sunday, 06-Nov-94 08:49:37 GMT"[0]);
    }
    assert !AllDigits("Sun Nov  6 08:49:37 1994") by {
      assert !IsDigit("Sun Nov  6 08:49:37 1994"[0]);
    }
  }

}

/**
 * The date handling of the filter's comparator: a `YYYY年MM月DD日` string is
 * normalised to `YYYY/MM/DD` and then read as a calendar date.
 */
module Dates {
  import opened Wrappers
  import opened Strings

  const YearMark: char := '\U{5E74}'
  const MonthMark: char := '\U{6708}'
  const DayMark: char := '\U{65E5}'

  predicate IsMark(c: char) {
    c == YearMark || c == MonthMark || c == DayMark
  }

  /** What one character of the raw date becomes: 年 and 月 turn into '/', 日 is dropped. */
  function NormalizeChar(c: char): string {
    if c == YearMark || c == MonthMark then "/"
    else if c == DayMark then ""
    else [c]
  }

  /** The date with every 年 and 月 replaced by a slash and every 日 removed. */
  function Normalize(raw: string): (t: string)
    ensures YearMark !in t && MonthMark !in t && DayMark !in t
    ensures |t| <= |raw|
  {
    if |raw| == 0 then "" else NormalizeChar(raw[0]) + Normalize(raw[1..])
  }

  /** Normalisation works character by character, so it distributes over concatenation. */
  lemma {:induction false} NormalizeAppend(a: string, b: string)
    ensures Normalize(a + b) == Normalize(a) + Normalize(b)
    decreases |a|
  {
    if |a| == 0 {
      assert a + b == b;
    } else {
      assert (a + b)[0] == a[0] && (a + b)[1..] == a[1..] + b;
      NormalizeAppend(a[1..], b);
    }
  }

  /** A string without the three markers is left unchanged. */
  lemma {:induction false} NormalizeUnmarked(s: string)
    requires forall i :: 0 <= i < |s| ==> !IsMark(s[i])
    ensures Normalize(s) == s
    decreases |s|
  {
    if |s| > 0 {
      NormalizeUnmarked(s[1..]);
      assert s == [s[0]] + s[1..];
    }
  }

  /**
   * Every character other than the three markers survives, in order, and
   * each 年 and 月 contributes one '/': counted as multisets, the slashes of
   * the result are the slashes, 年 and 月 of the input, and every other
   * character occurs as often as before.
   */
  lemma {:induction false} NormalizeCounts(raw: string)
    ensures multiset(Normalize(raw))['/'] ==
            multiset(raw)['/'] + multiset(raw)[YearMark] + multiset(raw)[MonthMark]
    ensures forall c :: c != '/' && !IsMark(c) ==> multiset(Normalize(raw))[c] == multiset(raw)[c]
    decreases |raw|
  {
    if |raw| > 0 {
      var h, rest := raw[0], raw[1..];
      NormalizeCounts(rest);
      NormalizeCharCounts(h);
      assert raw == [h] + rest;
      assert multiset(raw) == multiset{h} + multiset(rest);
      assert Normalize(raw) == NormalizeChar(h) + Normalize(rest);
      assert multiset(Normalize(raw)) == multiset(NormalizeChar(h)) + multiset(Normalize(rest));
    }
  }

  /** The counting step of NormalizeCounts for a single character. */
  lemma NormalizeCharCounts(h: char)
    ensures multiset(NormalizeChar(h))['/'] ==
            multiset{h}['/'] + multiset{h}[YearMark] + multiset{h}[MonthMark]
    ensures forall c :: c != '/' && !IsMark(c) ==> multiset(NormalizeChar(h))[c] == multiset{h}[c]
  {
    if h == YearMark || h == MonthMark {
      assert NormalizeChar(h) == ['/'];
    } else if h == DayMark {
      assert NormalizeChar(h) == [];
    } else {
      assert NormalizeChar(h) == [h];
    }
  }

  /** The characters of s other than '/' and the three markers, in order. */
  function Plain(s: string): string {
    if |s| == 0 then ""
    else (if s[0] == '/' || IsMark(s[0]) then "" else [s[0]]) + Plain(s[1..])
  }

  /** Normalisation keeps every other character in its original order. */
  lemma {:induction false} NormalizeKeepsOrder(raw: string)
    ensures Plain(Normalize(raw)) == Plain(raw)
    decreases |raw|
  {
    if |raw| > 0 {
      NormalizeKeepsOrder(raw[1..]);
      PlainAppend(NormalizeChar(raw[0]), Normalize(raw[1..]));
    }
  }

  lemma {:induction false} PlainAppend(a: string, b: string)
    ensures Plain(a + b) == Plain(a) + Plain(b)
    decreases |a|
  {
    if |a| == 0 {
      assert a + b == b;
    } else {
      assert (a + b)[0] == a[0] && (a + b)[1..] == a[1..] + b;
      PlainAppend(a[1..], b);
    }
  }

  predicate IsDigit(c: char) {
    '0' as int <= c as int <= '9' as int
  }

  /** A non-empty run of decimal digits. */
  predicate IsNumeral(s: string) {
    |s| > 0 && forall i :: 0 <= i < |s| ==> IsDigit(s[i])
  }

  function DigitChar(n: nat): char
    requires n < 10
  {
    ('0' as int + n) as char
  }

  function NumeralValue(s: string): nat
    requires forall i :: 0 <= i < |s| ==> IsDigit(s[i])
    decreases |s|
  {
    if |s| == 0 then 0
    else
      var c := s[|s| - 1];
      assert IsDigit(c);
      NumeralValue(s[..|s| - 1]) * 10 + ((c as int) - ('0' as int))
  }

  /** The shortest decimal numeral of n. */
  function Decimal(n: nat): (s: string)
    ensures IsNumeral(s)
    ensures |s| == 1 <==> n < 10
  {
    if n < 10 then [DigitChar(n)] else Decimal(n / 10) + [DigitChar(n % 10)]
  }

  lemma {:induction false} DecimalValue(n: nat)
    ensures NumeralValue(Decimal(n)) == n
    decreases n
  {
    if n >= 10 {
      DecimalValue(n / 10);
      var s := Decimal(n);
      assert s[..|s| - 1] == Decimal(n / 10);
    }
  }

  /** A leading zero does not change the value of a numeral. */
  lemma {:induction false} LeadingZero(s: string)
    requires forall i :: 0 <= i < |s| ==> IsDigit(s[i])
    ensures NumeralValue("0" + s) == NumeralValue(s)
    decreases |s|
  {
    if |s| > 0 {
      var z := "0" + s;
      assert z[..|z| - 1] == "0" + s[..|s| - 1];
      LeadingZero(s[..|s| - 1]);
    }
  }

  /** A month or day as the data writes it: two digits, zero-padded. */
  function TwoDigits(n: nat): (s: string)
    requires n < 100
    ensures IsNumeral(s) && |s| == 2
  {
    if n < 10 then "0" + Decimal(n) else Decimal(n)
  }

  lemma TwoDigitsValue(n: nat)
    requires n < 100
    ensures NumeralValue(TwoDigits(n)) == n
  {
    DecimalValue(n);
    if n < 10 {
      LeadingZero(Decimal(n));
    }
  }

  /** The date of a post in the data's format `YYYY年MM月DD日`. */
  function FormatDate(y: nat, m: nat, d: nat): string
    requires m < 100 && d < 100
  {
    Decimal(y) + ([YearMark] + (TwoDigits(m) + ([MonthMark] + (TwoDigits(d) + [DayMark]))))
  }

  predicate ValidMonthDay(m: nat, d: nat) {
    1 <= m <= 12 && 1 <= d <= 31
  }

  /** A sortable number for a date: later calendar dates get larger keys. */
  function DateKey(y: nat, m: nat, d: nat): nat {
    y * 10000 + m * 100 + d
  }

  /**
   * The abstract stand-in for the engine's Date parsing of a slashed date: three '/'-separated
   * numerals with a month in 1..12 and a day in 1..31 give the date's key,
   * anything else is an invalid date.
   */
  function ParseSlashed(t: string): (k: Option<nat>)
    ensures k.Some? ==> 1 <= k.value % 100 <= 31 && 1 <= (k.value / 100) % 100 <= 12
  {
    var parts := Split(t, '/');
    if |parts| == 3 && IsNumeral(parts[0]) && IsNumeral(parts[1]) && IsNumeral(parts[2])
       && ValidMonthDay(NumeralValue(parts[1]), NumeralValue(parts[2]))
    then
      var y, m, d := NumeralValue(parts[0]), NumeralValue(parts[1]), NumeralValue(parts[2]);
      DateKeyFields(y, m, d);
      Some(DateKey(y, m, d))
    else None
  }

  lemma DateKeyFields(y: nat, m: nat, d: nat)
    requires ValidMonthDay(m, d)
    ensures DateKey(y, m, d) % 100 == d && (DateKey(y, m, d) / 100) % 100 == m
  {
    assert DateKey(y, m, d) == (y * 100 + m) * 100 + d;
    assert DateKey(y, m, d) / 100 == y * 100 + m;
  }

  /** The comparator's date of a record: its normalised date string, parsed. */
  function ParseDate(raw: string): (k: Option<nat>)
    ensures k.Some? ==> 1 <= k.value % 100 <= 31 && 1 <= (k.value / 100) % 100 <= 12
  {
    ParseSlashed(Normalize(raw))
  }

  /** A numeral holds neither a marker nor a slash. */
  lemma NumeralUnmarked(s: string)
    requires IsNumeral(s)
    ensures forall i :: 0 <= i < |s| ==> !IsMark(s[i])
    ensures '/' !in s
  {
    assert forall i :: 0 <= i < |s| ==> IsDigit(s[i]);
  }

  /** An unmarked prefix passes through normalisation unchanged. */
  lemma NormalizeUnmarkedPrefix(a: string, rest: string)
    requires forall i :: 0 <= i < |a| ==> !IsMark(a[i])
    ensures Normalize(a + rest) == a + Normalize(rest)
  {
    NormalizeAppend(a, rest);
    NormalizeUnmarked(a);
  }

  lemma NormalizeFormatted(y: nat, m: nat, d: nat)
    requires m < 100 && d < 100
    ensures Normalize(FormatDate(y, m, d)) == Decimal(y) + ("/" + (TwoDigits(m) + ("/" + TwoDigits(d))))
  {
    var ys, ms, ds := Decimal(y), TwoDigits(m), TwoDigits(d);
    NumeralUnmarked(ys);
    NumeralUnmarked(ms);
    NumeralUnmarked(ds);
    var t3 := ds + [DayMark];
    NormalizeUnmarkedPrefix(ds, [DayMark]);
    assert Normalize(t3) == ds;
    var t2 := [MonthMark] + t3;
    assert Normalize(t2) == "/" + ds;
    var t1 := ms + t2;
    NormalizeUnmarkedPrefix(ms, t2);
    var t0 := [YearMark] + t1;
    assert Normalize(t0) == "/" + Normalize(t1);
    NormalizeUnmarkedPrefix(ys, t0);
  }

  lemma SplitThree(a: string, b: string, c: string)
    requires '/' !in a && '/' !in b && '/' !in c
    ensures Split(a + ("/" + (b + ("/" + c))), '/') == [a, b, c]
  {
    var s2 := "/" + c;
    SplitPrefix(c, "", '/');
    assert c + "" == c;
    assert Split(c, '/') == [c];
    assert s2[1..] == c;
    assert Split(s2, '/') == ["", c];
    var s1 := b + s2;
    SplitPrefix(b, s2, '/');
    assert b + "" == b;
    assert Split(s1, '/') == [b, c];
    var s0 := "/" + s1;
    assert s0[1..] == s1;
    assert Split(s0, '/') == ["", b, c];
    SplitPrefix(a, s0, '/');
    assert a + "" == a;
  }

  /** Every date written in the data's format parses back to its own key. */
  lemma ParseFormatted(y: nat, m: nat, d: nat)
    requires ValidMonthDay(m, d)
    ensures ParseDate(FormatDate(y, m, d)) == Some(DateKey(y, m, d))
  {
    var ys, ms, ds := Decimal(y), TwoDigits(m), TwoDigits(d);
    NormalizeFormatted(y, m, d);
    NumeralUnmarked(ys);
    NumeralUnmarked(ms);
    NumeralUnmarked(ds);
    SplitThree(ys, ms, ds);
    DecimalValue(y);
    TwoDigitsValue(m);
    TwoDigitsValue(d);
  }

  /** A date in the data's format with a month outside 1..12 or a day outside 1..31 is invalid. */
  lemma ParseFormattedInvalid(y: nat, m: nat, d: nat)
    requires m < 100 && d < 100 && !ValidMonthDay(m, d)
    ensures ParseDate(FormatDate(y, m, d)) == None
  {
    var ys, ms, ds := Decimal(y), TwoDigits(m), TwoDigits(d);
    NormalizeFormatted(y, m, d);
    NumeralUnmarked(ys);
    NumeralUnmarked(ms);
    NumeralUnmarked(ds);
    SplitThree(ys, ms, ds);
    TwoDigitsValue(m);
    TwoDigitsValue(d);
  }

  /** Only digits and slashes. */
  predicate DigitsAndSlashes(s: string) {
    forall i :: 0 <= i < |s| ==> IsDigit(s[i]) || s[i] == '/'
  }

  lemma DigitsAndSlashesAppend(a: string, b: string)
    requires DigitsAndSlashes(a) && DigitsAndSlashes(b)
    ensures DigitsAndSlashes(a + b)
  {
    forall i | 0 <= i < |a + b|
      ensures IsDigit((a + b)[i]) || (a + b)[i] == '/'
    {
      if i < |a| {
        assert (a + b)[i] == a[i];
      } else {
        assert (a + b)[i] == b[i - |a|];
      }
    }
  }

  /** A string the slashed-date parser accepts is three numerals joined by two slashes. */
  lemma ParseSlashedShape(t: string)
    requires ParseSlashed(t).Some?
    ensures DigitsAndSlashes(t)
    ensures multiset(t)['/'] == 2
  {
    var parts := Split(t, '/');
    var a, b, c := parts[0], parts[1], parts[2];
    JoinSplit(t, '/');
    assert parts[1..][1..] == [c];
    assert Join(parts[1..], '/') == b + "/" + c;
    assert t == a + "/" + (b + "/" + c);
    NumeralUnmarked(a);
    NumeralUnmarked(b);
    NumeralUnmarked(c);
    assert multiset(t) == multiset(a) + multiset{'/'} + multiset(b) + multiset{'/'} + multiset(c);
    assert '/' !in multiset(a) && '/' !in multiset(b) && '/' !in multiset(c);
    DigitsAndSlashesAppend(b, "/");
    DigitsAndSlashesAppend(b + "/", c);
    DigitsAndSlashesAppend(a, "/");
    DigitsAndSlashesAppend(a + "/", b + "/" + c);
    assert a + "/" + (b + "/" + c) == (a + "/") + (b + "/" + c);
  }

  /**
   * Which raw dates can parse: only those made of digits, slashes and the
   * three markers, with exactly two separators among '/', 年 and 月. Every
   * other string is an invalid date.
   */
  lemma ParseDateShape(raw: string)
    ensures ParseDate(raw).Some? ==>
              (forall i :: 0 <= i < |raw| ==> IsDigit(raw[i]) || raw[i] == '/' || IsMark(raw[i]))
              && multiset(raw)['/'] + multiset(raw)[YearMark] + multiset(raw)[MonthMark] == 2
  {
    if ParseDate(raw).Some? {
      var t := Normalize(raw);
      ParseSlashedShape(t);
      NormalizeCounts(raw);
      forall i | 0 <= i < |raw|
        ensures IsDigit(raw[i]) || raw[i] == '/' || IsMark(raw[i])
      {
        assert raw[i] in multiset(raw);
      }
    }
  }

  /** Key order is calendar order: by year, then month, then day. */
  lemma DateKeyOrder(y1: nat, m1: nat, d1: nat, y2: nat, m2: nat, d2: nat)
    requires ValidMonthDay(m1, d1) && ValidMonthDay(m2, d2)
    ensures DateKey(y1, m1, d1) < DateKey(y2, m2, d2) <==>
            (y1 < y2 || (y1 == y2 && (m1 < m2 || (m1 == m2 && d1 < d2))))
  {
    var md1, md2 := m1 * 100 + d1, m2 * 100 + d2;
    assert 0 < md1 < 10000 && 0 < md2 < 10000;
    if y1 < y2 {
      assert y1 * 10000 + 10000 <= y2 * 10000;
    } else if y2 < y1 {
      assert y2 * 10000 + 10000 <= y1 * 10000;
    }
  }

  /** The date format of the posts, as the comparator sees it. */
  lemma ParseExample()
    ensures ParseDate("2024\U{5E74}01\U{6708}05\U{65E5}") == Some(20240105)
  {
    assert FormatDate(2024, 1, 5) == "2024\U{5E74}01\U{6708}05\U{65E5}";
    ParseFormatted(2024, 1, 5);
  }
}

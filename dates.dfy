/**
 * Calendar values and the two date formats the spider uses: the row
 * timestamp read with `datetime.strptime(..., '%d/%m/%Y %H:%M:%S')` and the
 * form date written with `strftime('%d/%m/%Y')`.
 */
module Dates {

  import opened Wrappers
  import opened Text
  import opened Coerce

  datatype Date = Date(year: int, month: int, day: int)

  /** A `datetime` with whole seconds (strptime never sets microseconds here). */
  datatype DateTime = DateTime(date: Date, hour: int, minute: int, second: int)

  predicate IsLeapYear(y: int)
  {
    y % 4 == 0 && (y % 100 != 0 || y % 400 == 0)
  }

  function DaysInMonth(year: int, month: int): (n: int)
    ensures 28 <= n <= 31
  {
    if month == 2 then (if IsLeapYear(year) then 29 else 28)
    else if month == 4 || month == 6 || month == 9 || month == 11 then 30
    else 31
  }

  /** What Python's `date` constructor accepts (MINYEAR 1 to MAXYEAR 9999). */
  predicate ValidDate(d: Date)
  {
    1 <= d.year <= 9999 && 1 <= d.month <= 12 && 1 <= d.day <= DaysInMonth(d.year, d.month)
  }

  /** What Python's `datetime` constructor accepts. */
  predicate ValidDateTime(t: DateTime)
  {
    ValidDate(t.date) && 0 <= t.hour < 24 && 0 <= t.minute < 60 && 0 <= t.second < 60
  }

  /** Chronological position of a date; earlier dates have smaller keys. */
  function DateKey(d: Date): int
  {
    (d.year * 13 + d.month) * 32 + d.day
  }

  function SecondOfDay(t: DateTime): int
  {
    t.hour * 3600 + t.minute * 60 + t.second
  }

  /** Chronological position of a datetime: the order `datetime` compares by. */
  function Key(t: DateTime): int
  {
    DateKey(t.date) * 86400 + SecondOfDay(t)
  }

  /** A later (or equal) datetime falls on a later (or equal) calendar date. */
  lemma KeyOrdersDates(a: DateTime, b: DateTime)
    requires ValidDateTime(a) && ValidDateTime(b)
    requires Key(a) <= Key(b)
    ensures DateKey(a.date) <= DateKey(b.date)
  {
    assert 0 <= SecondOfDay(a) < 86400 && 0 <= SecondOfDay(b) < 86400;
  }

  /** Two valid dates with the same key are the same date. */
  lemma DateKeyInjective(a: Date, b: Date)
    requires ValidDate(a) && ValidDate(b)
    requires DateKey(a) == DateKey(b)
    ensures a == b
  {
    assert a.year * 13 + a.month == b.year * 13 + b.month;
  }

  // ---------------------------------------------------------------------
  // strptime('%d/%m/%Y %H:%M:%S')

  /** A one- or two-digit field whose value lies in `lo..hi`: the shape of
    * CPython's `%m`, `%H`, `%M` and `%S` patterns (for example
    * `1[0-2]|0[1-9]|[1-9]` for the month). */
  function NumberField(t: string, lo: int, hi: int): (r: Option<int>)
    ensures r.Some? ==> lo <= r.value <= hi
    ensures r.Some? ==> 1 <= |t| <= 2 && forall i :: 0 <= i < |t| ==> IsDigit(t[i])
  {
    if |t| == 1 && IsDigit(t[0]) && lo <= DigitValue(t[0]) <= hi then
      Some(DigitValue(t[0]))
    else if |t| == 2 && IsDigit(t[0]) && IsDigit(t[1])
      && lo <= 10 * DigitValue(t[0]) + DigitValue(t[1]) <= hi then
      Some(10 * DigitValue(t[0]) + DigitValue(t[1]))
    else None
  }

  /** `%d`: a day number 1..31 in one or two digits, or a space and one
    * non-zero digit. */
  function DayField(t: string): (r: Option<int>)
    ensures r.Some? ==> 1 <= r.value <= 31
    ensures r.Some? ==>
      || (1 <= |t| <= 2 && forall i :: 0 <= i < |t| ==> IsDigit(t[i]))
      || (|t| == 2 && t[0] == ' ' && IsDigit(t[1]) && t[1] != '0')
  {
    if |t| == 2 && t[0] == ' ' && IsDigit(t[1]) && DigitValue(t[1]) >= 1 then
      Some(DigitValue(t[1]))
    else NumberField(t, 1, 31)
  }

  /** `%Y`: exactly four digits. */
  function YearField(t: string): (r: Option<int>)
    ensures r.Some? ==> 0 <= r.value <= 9999
    ensures r.Some? ==> |t| == 4 && forall i :: 0 <= i < |t| ==> IsDigit(t[i])
  {
    if |t| == 4 && IsDigit(t[0]) && IsDigit(t[1]) && IsDigit(t[2]) && IsDigit(t[3]) then
      Some(((DigitValue(t[0]) * 10 + DigitValue(t[1])) * 10 + DigitValue(t[2])) * 10 + DigitValue(t[3]))
    else None
  }

  /** `%d` also accepts a space before a single non-zero digit. */
  lemma SpaceDayAccepted(d: nat)
    requires 1 <= d <= 9
    ensures DayField([' ', DigitChar(d)]) == Some(d)
  {
  }

  /** `datetime.strptime(s, '%d/%m/%Y %H:%M:%S')`, or None where it raises
    * `ValueError`.  The space of the format matches one or more whitespace
    * characters; the whole string must be consumed; the seconds pattern
    * admits 60 and 61 but the `datetime` constructor then refuses them, as it
    * refuses year 0 and a day past the end of its month. */
  function ParseTimestamp(s: string): (r: Option<DateTime>)
    ensures r.Some? ==> ValidDateTime(r.value)
  {
    var parts := Split(s, '/');
    if |parts| != 3 || |parts[2]| < 4 then None
    else
      var after := parts[2][4..];
      var gap := SpanSpace(after);
      var clock := Split(after[gap..], ':');
      if gap == 0 || |clock| != 3 then None
      else
        MakeTimestamp(DayField(parts[0]), NumberField(parts[1], 1, 12), YearField(parts[2][..4]),
                      NumberField(clock[0], 0, 23), NumberField(clock[1], 0, 59),
                      NumberField(clock[2], 0, 61))
  }

  /** The `datetime` the six matched fields denote, or None when a field did
    * not match or the constructor refuses the combination. */
  function MakeTimestamp(d: Option<int>, m: Option<int>, y: Option<int>,
                         h: Option<int>, mi: Option<int>, sec: Option<int>): (r: Option<DateTime>)
    ensures r.Some? ==> ValidDateTime(r.value)
  {
    if d.Some? && m.Some? && y.Some? && h.Some? && mi.Some? && sec.Some? then
      var t := DateTime(Date(y.value, m.value, d.value), h.value, mi.value, sec.value);
      if ValidDateTime(t) then Some(t) else None
    else None
  }

  // ---------------------------------------------------------------------
  // strftime('%d/%m/%Y')

  /** `n` in two digits with a leading zero (`%d`, `%m`, `%H`, ...). */
  function Pad2(n: int): (s: string)
    requires 0 <= n < 100
    ensures |s| == 2 && IsDigit(s[0]) && IsDigit(s[1])
    ensures 10 * DigitValue(s[0]) + DigitValue(s[1]) == n
  {
    [DigitChar(n / 10), DigitChar(n % 10)]
  }

  /** `n` in four digits with leading zeros (`%Y`). */
  function Pad4(n: int): (s: string)
    requires 0 <= n < 10000
    ensures |s| == 4 && forall i :: 0 <= i < 4 ==> IsDigit(s[i])
    ensures YearField(s) == Some(n)
  {
    var m := n / 10;
    var m2 := m / 10;
    assert n == m * 10 + n % 10 && m == m2 * 10 + m % 10 && m2 == m2 / 10 * 10 + m2 % 10;
    [DigitChar(m2 / 10), DigitChar(m2 % 10), DigitChar(m % 10), DigitChar(n % 10)]
  }

  /** `strftime('%d/%m/%Y')`. */
  function FormatDate(d: Date): (s: string)
    requires ValidDate(d)
    ensures |s| == 10 && s[2] == '/' && s[5] == '/'
    ensures forall i :: 0 <= i < 10 && i != 2 && i != 5 ==> IsDigit(s[i])
    ensures DayField(s[..2]) == Some(d.day) && NumberField(s[3..5], 1, 12) == Some(d.month)
    ensures YearField(s[6..]) == Some(d.year)
  {
    DayFieldPad2(d.day);
    NumberFieldPad2(d.month, 1, 12);
    var s := Pad2(d.day) + "/" + Pad2(d.month) + "/" + Pad4(d.year);
    assert s[..2] == Pad2(d.day) && s[3..5] == Pad2(d.month) && s[6..] == Pad4(d.year);
    s
  }

  /** `strftime('%H:%M:%S')`: the clock half of the row timestamp format. */
  function FormatClock(t: DateTime): string
    requires ValidDateTime(t)
  {
    Pad2(t.hour) + ":" + Pad2(t.minute) + ":" + Pad2(t.second)
  }

  /** A two-digit field matches a pattern exactly when its value is in the
    * pattern's range. */
  lemma NumberFieldPad2(n: int, lo: int, hi: int)
    requires 0 <= n < 100
    ensures NumberField(Pad2(n), lo, hi) == if lo <= n <= hi then Some(n) else None
  {
  }

  lemma DayFieldPad2(n: int)
    requires 0 <= n < 100
    ensures DayField(Pad2(n)) == if 1 <= n <= 31 then Some(n) else None
  {
    assert Pad2(n)[0] != ' ';
  }

  /** Splitting `a + [sep] + b + [sep] + c` at a separator none of the
    * three contains. */
  lemma SplitThree(a: string, b: string, c: string, sep: char)
    requires sep !in a && sep !in b && sep !in c
    ensures Split(a + [sep] + b + [sep] + c, sep) == [a, b, c]
  {
    Regroup(a, [sep], b, [sep], c);
    SplitAtFirst(a, sep, b + [sep] + c);
    SplitAtFirst(b, sep, c);
    SplitNoSep(c, sep);
  }

  lemma DigitsHaveNo(s: string, c: char)
    requires forall i :: 0 <= i < |s| ==> IsDigit(s[i])
    requires !IsDigit(c)
    ensures c !in s
  {
  }

  /** The text `strptime` reads at line 90, built from its six field texts
    * and the whitespace between the date and the clock. */
  function TimestampText(dd: string, mm: string, yy: string, gap: string,
                         hh: string, nn: string, ss: string): string
  {
    dd + "/" + mm + "/" + (yy + (gap + (hh + ":" + nn + ":" + ss)))
  }

  lemma BlankHasNo(s: string, c: char)
    requires AllSpace(s) && !IsSpace(c)
    ensures c !in s
  {
  }

  /** For digit fields, a four-digit year and any non-empty whitespace gap,
    * the parse is decided field by field by the patterns and the `datetime`
    * constructor. */
  lemma {:induction false} TimestampOfFields(dd: string, mm: string, yy: string, gap: string,
                                             hh: string, nn: string, ss: string)
    requires forall i :: 0 <= i < |dd| ==> IsDigit(dd[i])
    requires forall i :: 0 <= i < |mm| ==> IsDigit(mm[i])
    requires |yy| == 4 && forall i :: 0 <= i < |yy| ==> IsDigit(yy[i])
    requires gap != [] && AllSpace(gap)
    requires forall i :: 0 <= i < |hh| ==> IsDigit(hh[i])
    requires forall i :: 0 <= i < |nn| ==> IsDigit(nn[i])
    requires forall i :: 0 <= i < |ss| ==> IsDigit(ss[i])
    ensures ParseTimestamp(TimestampText(dd, mm, yy, gap, hh, nn, ss))
      == MakeTimestamp(DayField(dd), NumberField(mm, 1, 12), YearField(yy),
                       NumberField(hh, 0, 23), NumberField(nn, 0, 59), NumberField(ss, 0, 61))
  {
    var clock := hh + ":" + nn + ":" + ss;
    var rest := yy + (gap + clock);
    DigitsHaveNo(dd, '/');
    DigitsHaveNo(mm, '/');
    assert '/' !in rest by {
      DigitsHaveNo(yy, '/');
      BlankHasNo(gap, '/');
      DigitsHaveNo(hh, '/');
      DigitsHaveNo(nn, '/');
      DigitsHaveNo(ss, '/');
    }
    SplitThree(dd, mm, rest, '/');
    ClockAfterGap(gap, hh, nn, ss);
  }

  /** After the year, the gap is exactly the leading whitespace, and the
    * clock splits into its three fields. */
  lemma ClockAfterGap(gap: string, hh: string, nn: string, ss: string)
    requires gap != [] && AllSpace(gap)
    requires forall i :: 0 <= i < |hh| ==> IsDigit(hh[i])
    requires forall i :: 0 <= i < |nn| ==> IsDigit(nn[i])
    requires forall i :: 0 <= i < |ss| ==> IsDigit(ss[i])
    ensures var clock := hh + ":" + nn + ":" + ss;
      && SpanSpace(gap + clock) == |gap|
      && (gap + clock)[|gap|..] == clock
      && Split(clock, ':') == [hh, nn, ss]
  {
    var clock := hh + ":" + nn + ":" + ss;
    assert clock[0] == ':' || IsDigit(clock[0]);
    SpanSpaceOfBlankThen(gap, clock);
    DigitsHaveNo(hh, ':');
    DigitsHaveNo(nn, ':');
    DigitsHaveNo(ss, ':');
    SplitThree(hh, nn, ss, ':');
  }

  /** The timestamp text with every field in two digits (four for the year),
    * as the results table prints it, with any whitespace gap. */
  function PaddedTimestamp(y: int, m: int, d: int, h: int, mi: int, sec: int, gap: string): string
    requires 0 <= y < 10000 && 0 <= m < 100 && 0 <= d < 100
    requires 0 <= h < 100 && 0 <= mi < 100 && 0 <= sec < 100
  {
    TimestampText(Pad2(d), Pad2(m), Pad4(y), gap, Pad2(h), Pad2(mi), Pad2(sec))
  }

  /** For text of the right shape, the parse succeeds exactly when the fields
    * form a real `datetime`: a field outside its pattern's range (month 13,
    * day 32, hour 24) does not match, and year 0, 29 February of a common
    * year, 31 April or second 60 are refused by the constructor. Any
    * non-empty run of whitespace separates the date from the clock. */
  lemma PaddedTimestampChecked(y: int, m: int, d: int, h: int, mi: int, sec: int, gap: string)
    requires 0 <= y < 10000 && 0 <= m < 100 && 0 <= d < 100
    requires 0 <= h < 100 && 0 <= mi < 100 && 0 <= sec < 100
    requires gap != [] && AllSpace(gap)
    ensures var t := DateTime(Date(y, m, d), h, mi, sec);
      ParseTimestamp(PaddedTimestamp(y, m, d, h, mi, sec, gap)) == if ValidDateTime(t) then Some(t) else None
  {
    TimestampOfFields(Pad2(d), Pad2(m), Pad4(y), gap, Pad2(h), Pad2(mi), Pad2(sec));
    DayFieldPad2(d);
    NumberFieldPad2(m, 1, 12);
    NumberFieldPad2(h, 0, 23);
    NumberFieldPad2(mi, 0, 59);
    NumberFieldPad2(sec, 0, 61);
  }

  /** `str(n)` for a field below 100: one digit below 10, as `%d`, `%m`,
    * `%H`, `%M` and `%S` also accept. */
  lemma NumberFieldShowNat(n: nat, lo: int, hi: int)
    requires n < 100
    ensures (forall i :: 0 <= i < |ShowNat(n)| ==> IsDigit(ShowNat(n)[i]))
    ensures NumberField(ShowNat(n), lo, hi) == if lo <= n <= hi then Some(n) else None
  {
    if n >= 10 {
      assert ShowNat(n) == Pad2(n);
      NumberFieldPad2(n, lo, hi);
    }
  }

  lemma DayFieldShowNat(n: nat)
    requires n < 100
    ensures DayField(ShowNat(n)) == if 1 <= n <= 31 then Some(n) else None
  {
    NumberFieldShowNat(n, 1, 31);
    assert ShowNat(n)[0] != ' ';
  }

  /** The leading zero is optional: the same check holds with the day,
    * month, hour, minute and second written without padding. */
  lemma UnpaddedTimestampChecked(y: int, m: nat, d: nat, h: nat, mi: nat, sec: nat, gap: string)
    requires 0 <= y < 10000 && m < 100 && d < 100 && h < 100 && mi < 100 && sec < 100
    requires gap != [] && AllSpace(gap)
    ensures var t := DateTime(Date(y, m, d), h, mi, sec);
      ParseTimestamp(TimestampText(ShowNat(d), ShowNat(m), Pad4(y), gap, ShowNat(h), ShowNat(mi), ShowNat(sec)))
      == if ValidDateTime(t) then Some(t) else None
  {
    DayFieldShowNat(d);
    NumberFieldShowNat(m, 1, 12);
    NumberFieldShowNat(h, 0, 23);
    NumberFieldShowNat(mi, 0, 59);
    NumberFieldShowNat(sec, 0, 61);
    TimestampOfFields(ShowNat(d), ShowNat(m), Pad4(y), gap, ShowNat(h), ShowNat(mi), ShowNat(sec));
  }

  /** Fields outside their patterns' ranges are refused: month 13, day 32,
    * hour 24, minute 60. */
  lemma OutOfRangeRefused()
    ensures ParseTimestamp(PaddedTimestamp(2020, 13, 1, 10, 0, 0, " ")) == None
    ensures ParseTimestamp(PaddedTimestamp(2020, 1, 32, 10, 0, 0, " ")) == None
    ensures ParseTimestamp(PaddedTimestamp(2020, 1, 1, 24, 0, 0, " ")) == None
    ensures ParseTimestamp(PaddedTimestamp(2020, 1, 1, 10, 60, 0, " ")) == None
  {
    PaddedTimestampChecked(2020, 13, 1, 10, 0, 0, " ");
    PaddedTimestampChecked(2020, 1, 32, 10, 0, 0, " ");
    PaddedTimestampChecked(2020, 1, 1, 24, 0, 0, " ");
    PaddedTimestampChecked(2020, 1, 1, 10, 60, 0, " ");
  }

  /** Conversely, a parsed timestamp is read from its text: the three
    * '/'-parts give the day, the month and (in their first four characters)
    * the year, and after the whitespace gap the three ':'-parts give the
    * clock. */
  lemma ParseTimestampFields(s: string, t: DateTime)
    requires ParseTimestamp(s) == Some(t)
    ensures var parts := Split(s, '/');
      && |parts| == 3 && |parts[2]| >= 4
      && DayField(parts[0]) == Some(t.date.day)
      && NumberField(parts[1], 1, 12) == Some(t.date.month)
      && YearField(parts[2][..4]) == Some(t.date.year)
      && var after := parts[2][4..];
         var gap := SpanSpace(after);
         var clock := Split(after[gap..], ':');
         && gap >= 1 && AllSpace(after[..gap]) && |clock| == 3
         && NumberField(clock[0], 0, 23) == Some(t.hour)
         && NumberField(clock[1], 0, 59) == Some(t.minute)
         && NumberField(clock[2], 0, 61) == Some(t.second)
  {
  }

  /** Reading back a formatted date and clock yields the same datetime. */
  lemma TimestampRoundTrip(t: DateTime)
    requires ValidDateTime(t)
    ensures ParseTimestamp(FormatDate(t.date) + " " + FormatClock(t)) == Some(t)
  {
    var y, m, d := t.date.year, t.date.month, t.date.day;
    PaddedTimestampChecked(y, m, d, t.hour, t.minute, t.second, " ");
    assert FormatDate(t.date) + " " + FormatClock(t) == PaddedTimestamp(y, m, d, t.hour, t.minute, t.second, " ");
  }

  /** The form date determines the calendar date it was written from. */
  lemma FormatDateInjective(a: Date, b: Date)
    requires ValidDate(a) && ValidDate(b)
    requires FormatDate(a) == FormatDate(b)
    ensures a == b
  {
    var ta, tb := DateTime(a, 0, 0, 0), DateTime(b, 0, 0, 0);
    TimestampRoundTrip(ta);
    TimestampRoundTrip(tb);
    assert FormatClock(ta) == FormatClock(tb);
  }
}

/**
 * The creation time of a key (packages/encryption-binary-rust/src/key_store/mod.rs): seconds since
 * 1970 turned into a UTC date and time of the form in section 5.6 of RFC 3339.
 */
module Calendar {

  predicate IsLeapYear(y: nat) {
    (y % 4 == 0 && y % 100 != 0) || y % 400 == 0
  }

  function MonthLength(y: nat, m: nat): nat {
    if m == 2 then (if IsLeapYear(y) then 29 else 28)
    else if m in {4, 6, 9, 11} then 30
    else 31
  }

  function YearLength(y: nat): nat {
    if IsLeapYear(y) then 366 else 365
  }

  /** Days from 1 January 1970 to 1 January of year `y`: 477 leap days lie before 1970. */
  function DaysBeforeYear(y: nat): int
    requires y >= 1970
  {
    365 * (y - 1970) + (y - 1) / 4 - (y - 1) / 100 + (y - 1) / 400 - 477
  }

  function DaysBeforeMonth(y: nat, m: nat): nat {
    if m <= 1 then 0 else DaysBeforeMonth(y, m - 1) + MonthLength(y, m - 1)
  }

  datatype Stamp = Stamp(year: nat, month: nat, day: nat, hour: nat, minute: nat, second: nat)

  predicate Valid(t: Stamp) {
    && t.year >= 1970 && 1 <= t.month <= 12 && 1 <= t.day <= MonthLength(t.year, t.month)
    && t.hour < 24 && t.minute < 60 && t.second < 60
  }

  /** The day of a date, counted from 1 January 1970. */
  function DayNumber(t: Stamp): int
    requires Valid(t)
  {
    DaysBeforeYear(t.year) + DaysBeforeMonth(t.year, t.month) + t.day - 1
  }

  function Seconds(t: Stamp): int
    requires Valid(t)
  {
    86400 * DayNumber(t) + 3600 * t.hour + 60 * t.minute + t.second
  }

  /** Decimal digits, with zeros in front up to the width. */
  function Digits(n: nat, width: nat): string {
    var last := ['0' + (n % 10) as char];
    if n < 10 && width <= 1 then last
    else Digits(n / 10, if width == 0 then 0 else width - 1) + last
  }

  function TimeText(t: Stamp): string {
    Digits(t.hour, 2) + (":" + (Digits(t.minute, 2) + (":" + (Digits(t.second, 2) + "Z"))))
  }

  function DayText(t: Stamp): string {
    Digits(t.day, 2) + ("T" + TimeText(t))
  }

  function MonthText(t: Stamp): string {
    Digits(t.month, 2) + ("-" + DayText(t))
  }

  function Text(t: Stamp): string {
    Digits(t.year, 4) + ("-" + MonthText(t))
  }

  // ----- the calendar

  lemma NextYear(y: nat)
    requires y >= 1970
    ensures DaysBeforeYear(y + 1) == DaysBeforeYear(y) + YearLength(y)
  {
    MultipleBelow(y, 4);
    MultipleBelow(y, 100);
    MultipleBelow(y, 400);
  }

  lemma MultipleBelow(y: nat, n: nat)
    requires y > 0 && n > 0
    ensures y / n == (y - 1) / n + if y % n == 0 then 1 else 0
  {
    var q, r := y / n, y % n;
    if r == 0 {
      assert y - 1 == n * (q - 1) + (n - 1);
      QuotientIs(y - 1, n, q - 1, n - 1);
    } else {
      QuotientIs(y - 1, n, q, r - 1);
    }
  }

  lemma QuotientIs(x: nat, n: nat, q: int, r: nat)
    requires n > 0 && r < n && x == n * q + r
    ensures x / n == q
  {
    var d := x / n - q;
    assert n * (x / n) + x % n == x;
    assert n * d == r - x % n;
    assert d >= 1 ==> n * d >= n;
    assert d <= -1 ==> n * d + n <= 0;
  }

  lemma {:induction false} YearsGrow(y: nat, z: nat)
    requires 1970 <= y < z
    ensures DaysBeforeYear(z) >= DaysBeforeYear(y) + YearLength(y)
    decreases z
  {
    NextYear(z - 1);
    if y < z - 1 {
      YearsGrow(y, z - 1);
    }
  }

  lemma {:induction false} MonthsGrow(y: nat, m: nat, k: nat)
    requires 1 <= m < k
    ensures DaysBeforeMonth(y, k) >= DaysBeforeMonth(y, m) + MonthLength(y, m)
  {
    if m < k - 1 {
      MonthsGrow(y, m, k - 1);
    }
  }

  lemma TwelveMonths(y: nat)
    ensures DaysBeforeMonth(y, 13) == YearLength(y)
  {
    assert DaysBeforeMonth(y, 2) == 31;
    assert DaysBeforeMonth(y, 3) == 31 + MonthLength(y, 2);
    assert DaysBeforeMonth(y, 5) == DaysBeforeMonth(y, 3) + 61;
    assert DaysBeforeMonth(y, 7) == DaysBeforeMonth(y, 5) + 61;
    assert DaysBeforeMonth(y, 9) == DaysBeforeMonth(y, 7) + 62;
    assert DaysBeforeMonth(y, 11) == DaysBeforeMonth(y, 9) + 61;
    assert DaysBeforeMonth(y, 13) == DaysBeforeMonth(y, 11) + 61;
  }

  predicate Earlier(a: Stamp, b: Stamp) {
    || a.year < b.year || (a.year == b.year && (a.month < b.month || (a.month == b.month && a.day < b.day)))
  }

  lemma EarlierDay(a: Stamp, b: Stamp)
    requires Valid(a) && Valid(b) && Earlier(a, b)
    ensures DayNumber(a) < DayNumber(b)
  {
    if a.year < b.year {
      YearsGrow(a.year, b.year);
      TwelveMonths(a.year);
      MonthsGrow(a.year, a.month, 13);
    } else if a.month < b.month {
      MonthsGrow(a.year, a.month, b.month);
    }
  }

  /** Day numbers order dates as year, month and day do, so no two dates share one. */
  lemma DayNumberOrdersDates(a: Stamp, b: Stamp)
    requires Valid(a) && Valid(b)
    ensures DayNumber(a) < DayNumber(b) <==> Earlier(a, b)
  {
    if Earlier(a, b) {
      EarlierDay(a, b);
    } else if Earlier(b, a) {
      EarlierDay(b, a);
    }
  }

  /**
   * For every number of seconds both loops end, with the text of the one valid Gregorian date and time
   * that is that many seconds after 1 January 1970.
   */
  method NowIso8601(secs: nat) returns (text: string)
    ensures exists t :: Valid(t) && Seconds(t) == secs && text == Text(t)
  {
    var days := secs / 86400;
    var timeOfDay := secs % 86400;
    var hours := timeOfDay / 3600;
    var minutes := timeOfDay % 3600 / 60;
    var seconds := timeOfDay % 60;

    var y := 1970;
    var remainingDays: int := days;
    while true
      invariant y >= 1970 && remainingDays >= 0
      invariant DaysBeforeYear(y) + remainingDays == days
      decreases remainingDays
    {
      var daysInYear := if IsLeapYear(y) then 366 else 365;
      if remainingDays < daysInYear {
        break;
      }
      NextYear(y);
      remainingDays := remainingDays - daysInYear;
      y := y + 1;
    }

    var m := 1;
    var daysInMonths :=
      if IsLeapYear(y) then [31, 29, 31, 30, 31, 30, 31, 31, 30, 31, 30, 31]
      else [31, 28, 31, 30, 31, 30, 31, 31, 30, 31, 30, 31];
    TwelveMonths(y);
    while m <= |daysInMonths|
      invariant 1 <= m <= 13 && remainingDays >= 0
      invariant DaysBeforeYear(y) + DaysBeforeMonth(y, m) + remainingDays == days
      invariant DaysBeforeMonth(y, m) + remainingDays < YearLength(y)
    {
      var dim := daysInMonths[m - 1];
      assert dim == MonthLength(y, m);
      if remainingDays < dim {
        break;
      }
      remainingDays := remainingDays - dim;
      m := m + 1;
    }
    var d := remainingDays + 1;

    var t := Stamp(y, m, d, hours, minutes, seconds);
    SplitTime(timeOfDay);
    assert Valid(t) && Seconds(t) == secs;
    text := Text(t);
  }

  lemma SplitTime(t: nat)
    requires t < 86400
    ensures t / 3600 < 24 && 3600 * (t / 3600) + 60 * (t % 3600 / 60) + t % 60 == t
  {
    assert t % 3600 == t - 3600 * (t / 3600);
    assert t % 3600 % 60 == t % 60;
  }

  // ----- what the text says

  function Power(w: nat): nat {
    if w == 0 then 1 else 10 * Power(w - 1)
  }

  /** The number that decimal digits write. */
  function Value(s: string): int {
    if s == "" then 0 else 10 * Value(s[..|s| - 1]) + (s[|s| - 1] as int - '0' as int)
  }

  predicate IsDecimal(s: string) {
    forall i | 0 <= i < |s| :: '0' <= s[i] <= '9'
  }

  lemma DigitAppends(front: string, d: nat)
    requires d < 10 && IsDecimal(front)
    ensures var s := front + ['0' + d as char]; IsDecimal(s) && Value(s) == 10 * Value(front) + d
  {
    var s := front + ['0' + d as char];
    assert s[..|s| - 1] == front;
  }

  lemma {:induction false} DigitsWrite(n: nat, width: nat)
    ensures IsDecimal(Digits(n, width)) && Value(Digits(n, width)) == n && |Digits(n, width)| >= width
    ensures width > 0 && n < Power(width) ==> |Digits(n, width)| == width
    decreases n, width
  {
    if n < 10 && width <= 1 {
      DigitAppends("", n);
      assert "" + ['0' + n as char] == ['0' + n as char];
    } else {
      var w := if width == 0 then 0 else width - 1;
      DigitsWrite(n / 10, w);
      DigitAppends(Digits(n / 10, w), n % 10);
    }
  }

  /** A field of two digits and what follows it. */
  lemma TwoDigits(n: nat, c: char, rest: string)
    requires n < 100
    ensures var s := Digits(n, 2) + ([c] + rest);
      && |s| == 3 + |rest| && IsDecimal(s[..2]) && Value(s[..2]) == n && s[2] == c && s[3..] == rest
  {
    DigitsWrite(n, 2);
    assert Power(2) == 100;
    var s := Digits(n, 2) + ([c] + rest);
    assert s[..2] == Digits(n, 2) && s[3..] == rest;
  }

  /** Two digits at `i`. */
  predicate Field(s: string, i: nat, n: nat) {
    i + 2 <= |s| && IsDecimal(s[i..i + 2]) && Value(s[i..i + 2]) == n
  }

  predicate IsTime(s: string, t: Stamp) {
    && |s| == 9 && Field(s, 0, t.hour) && s[2] == ':' && Field(s, 3, t.minute) && s[5] == ':' && Field(s, 6, t.second)
    && s[8] == 'Z'
  }

  predicate IsDayAndTime(s: string, t: Stamp) {
    |s| == 12 && Field(s, 0, t.day) && s[2] == 'T' && IsTime(s[3..], t)
  }

  predicate IsMonthAndDay(s: string, t: Stamp) {
    |s| == 15 && Field(s, 0, t.month) && s[2] == '-' && IsDayAndTime(s[3..], t)
  }

  lemma TimeReads(t: Stamp)
    requires Valid(t)
    ensures IsTime(TimeText(t), t)
  {
    var seconds := Digits(t.second, 2) + "Z";
    var minutes := Digits(t.minute, 2) + (":" + seconds);
    var s := TimeText(t);
    TwoDigits(t.second, 'Z', "");
    assert seconds == Digits(t.second, 2) + ("Z" + "");
    TwoDigits(t.minute, ':', seconds);
    TwoDigits(t.hour, ':', minutes);
    assert s[0..2] == s[..2] && s[3..5] == s[3..][..2] && s[6..8] == s[3..][3..][..2];
    assert s[5] == s[3..][2] && s[8] == s[3..][3..][2];
  }

  lemma DayReads(t: Stamp)
    requires Valid(t)
    ensures IsDayAndTime(DayText(t), t)
  {
    TimeReads(t);
    TwoDigits(t.day, 'T', TimeText(t));
    assert DayText(t)[0..2] == DayText(t)[..2];
  }

  lemma MonthReads(t: Stamp)
    requires Valid(t)
    ensures IsMonthAndDay(MonthText(t), t)
  {
    DayReads(t);
    TwoDigits(t.month, '-', DayText(t));
    assert MonthText(t)[0..2] == MonthText(t)[..2];
  }

  /**
   * The text has the form of section 5.6 of RFC 3339, and its fields are those of the stamp. Only the year may take
   * more than its four digits.
   */
  lemma TextReads(t: Stamp)
    requires Valid(t)
    ensures var s, y := Text(t), |Text(t)| - 16;
      && y >= 4 && (t.year < 10000 ==> y == 4) && IsDecimal(s[..y]) && Value(s[..y]) == t.year && s[y] == '-'
      && IsMonthAndDay(s[y + 1..], t)
  {
    MonthReads(t);
    DigitsWrite(t.year, 4);
    assert Power(4) == 100 * Power(2) && Power(2) == 100;
    Behind(Digits(t.year, 4), '-', MonthText(t));
  }

  lemma Behind(a: string, c: char, b: string)
    ensures var s := a + ([c] + b); s[..|a|] == a && s[|a|] == c && s[|a| + 1..] == b
  {
  }

  // ----- the order of the texts

  /** The order in which strings sort. */
  predicate Before(a: string, b: string) {
    b != "" && (a == "" || a[0] < b[0] || (a[0] == b[0] && Before(a[1..], b[1..])))
  }

  lemma {:induction false} BeforeAfterPrefix(p: string, q: string, a: string, b: string)
    requires |p| == |q|
    ensures Before(p + a, q + b) <==> Before(p, q) || (p == q && Before(a, b))
  {
    if p == "" {
      assert p + a == a && q + b == b;
    } else {
      assert (p + a)[1..] == p[1..] + a && (q + b)[1..] == q[1..] + b;
      BeforeAfterPrefix(p[1..], q[1..], a, b);
      assert p == [p[0]] + p[1..] && q == [q[0]] + q[1..];
    }
  }

  /** Numbers that fit the width sort as they compare. */
  lemma {:induction false} DigitsSort(n: nat, k: nat, w: nat)
    requires w > 0 && n < Power(w) && k < Power(w)
    ensures |Digits(n, w)| == |Digits(k, w)| == w
    ensures Before(Digits(n, w), Digits(k, w)) <==> n < k
    ensures Digits(n, w) == Digits(k, w) <==> n == k
  {
    var a, b := ['0' + (n % 10) as char], ['0' + (k % 10) as char];
    if w > 1 {
      var p, q := Digits(n / 10, w - 1), Digits(k / 10, w - 1);
      DigitsSort(n / 10, k / 10, w - 1);
      BeforeAfterPrefix(p, q, a, b);
      assert (p + a)[..w - 1] == p && (q + b)[..w - 1] == q && (p + a)[w - 1] == a[0] && (q + b)[w - 1] == b[0];
    }
  }

  /** One numeric field of equal width in front of the rest. */
  lemma FieldSorts(n: nat, k: nat, w: nat, a: string, b: string)
    requires w > 0 && n < Power(w) && k < Power(w)
    ensures Before(Digits(n, w) + a, Digits(k, w) + b) <==> n < k || (n == k && Before(a, b))
  {
    DigitsSort(n, k, w);
    BeforeAfterPrefix(Digits(n, w), Digits(k, w), a, b);
  }

  lemma MarkSorts(mark: char, a: string, b: string)
    ensures Before([mark] + a, [mark] + b) <==> Before(a, b)
  {
    BeforeAfterPrefix([mark], [mark], a, b);
  }

  lemma TimeSorts(a: Stamp, b: Stamp)
    requires Valid(a) && Valid(b)
    ensures Before(TimeText(a), TimeText(b)) <==>
      3600 * a.hour + 60 * a.minute + a.second < 3600 * b.hour + 60 * b.minute + b.second
  {
    assert Power(2) == 100;
    var sa, sb := Digits(a.second, 2) + "Z", Digits(b.second, 2) + "Z";
    var ma, mb := Digits(a.minute, 2) + (":" + sa), Digits(b.minute, 2) + (":" + sb);
    FieldSorts(a.second, b.second, 2, "Z", "Z");
    MarkSorts(':', sa, sb);
    FieldSorts(a.minute, b.minute, 2, ":" + sa, ":" + sb);
    MarkSorts(':', ma, mb);
    FieldSorts(a.hour, b.hour, 2, ":" + ma, ":" + mb);
    assert !Before("Z", "Z");
  }

  lemma DateSorts(a: Stamp, b: Stamp)
    requires Valid(a) && Valid(b) && a.year < 10000 && b.year < 10000
    ensures Before(Text(a), Text(b)) <==>
      Earlier(a, b) || (a.year == b.year && a.month == b.month && a.day == b.day && Before(TimeText(a), TimeText(b)))
  {
    assert Power(2) == 100 && Power(4) == 100 * Power(2);
    var da, db := DayText(a), DayText(b);
    var ma, mb := Digits(a.month, 2) + ("-" + da), Digits(b.month, 2) + ("-" + db);
    MarkSorts('T', TimeText(a), TimeText(b));
    FieldSorts(a.day, b.day, 2, "T" + TimeText(a), "T" + TimeText(b));
    MarkSorts('-', da, db);
    FieldSorts(a.month, b.month, 2, "-" + da, "-" + db);
    MarkSorts('-', ma, mb);
    FieldSorts(a.year, b.year, 4, "-" + ma, "-" + mb);
  }

  /** Through the year 9999 the texts sort exactly as the times they stand for. */
  lemma TextsSortAsTimes(a: Stamp, b: Stamp)
    requires Valid(a) && Valid(b) && a.year < 10000 && b.year < 10000
    ensures Before(Text(a), Text(b)) <==> Seconds(a) < Seconds(b)
  {
    DateSorts(a, b);
    TimeSorts(a, b);
    DayNumberOrdersDates(a, b);
    DayNumberOrdersDates(b, a);
  }

  ghost predicate SortThrough(lastYear: nat) {
    forall a, b | Valid(a) && Valid(b) && a.year <= lastYear && b.year <= lastYear ::
      Before(Text(a), Text(b)) <==> Seconds(a) < Seconds(b)
  }

  lemma LeadingDigits()
    ensures Digits(9999, 4)[0] == '9' && Digits(10000, 4)[0] == '1'
  {
    assert Digits(99, 2) == Digits(9, 1) + "9" && Digits(9999, 4) == Digits(99, 2) + "9" + "9";
    assert Digits(100, 2) == Digits(10, 1) + "0" && Digits(10, 1) == Digits(1, 0) + "0";
    assert Digits(1000, 3) == Digits(100, 2) + "0" && Digits(10000, 4) == Digits(1000, 3) + "0";
  }

  /** 9999 is the last such year: the first second of 10000 sorts before the last one of 9999. */
  lemma SortEndsAt9999(lastYear: nat)
    ensures SortThrough(lastYear) <==> lastYear <= 9999
  {
    if lastYear <= 9999 {
      forall a, b | Valid(a) && Valid(b) && a.year <= lastYear && b.year <= lastYear
        ensures Before(Text(a), Text(b)) <==> Seconds(a) < Seconds(b)
      {
        TextsSortAsTimes(a, b);
      }
    } else {
      var a, b := Stamp(9999, 12, 31, 23, 59, 59), Stamp(10000, 1, 1, 0, 0, 0);
      LeadingDigits();
      assert Text(a)[0] == '9' && Text(b)[0] == '1';
      EarlierDay(a, b);
      assert Valid(a) && Valid(b) && Seconds(a) < Seconds(b) && !Before(Text(a), Text(b));
    }
  }
}

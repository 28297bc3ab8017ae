/** The date-key codec (`getDateKey`) and the display formatter
    (`formatDate`) of src/main.js.  A date enters the model as what the
    local-time getters of a JavaScript `Date` report, so the time zone
    has already been applied by whoever supplied it. */
module DateKeys {
  import opened Options
  import opened JsStrings

  /** A JavaScript `Date` seen through its local-time getters: `getFullYear()`,
      `getMonth()` (0 = January), `getDate()` (day of the month) and `getDay()`
      (0 = Sunday).  An invalid date (`new Date("")`) answers `NaN` to all four. */
  datatype Date = InvalidDate | Local(year: int, month: int, date: int, day: int)

  /** The ranges the getters of a valid date keep to. */
  predicate InRange(d: Date) {
    d.Local? ==> 0 <= d.month < 12 && 1 <= d.date <= 31 && 0 <= d.day < 7
  }

  // The getters; None stands for NaN.
  function FullYear(d: Date): Option<int> {
    if d.Local? then Some(d.year) else None
  }

  function Month(d: Date): Option<int> {
    if d.Local? then Some(d.month) else None
  }

  function DayOfMonth(d: Date): Option<int> {
    if d.Local? then Some(d.date) else None
  }

  function DayOfWeek(d: Date): Option<int> {
    if d.Local? then Some(d.day) else None
  }

  /** `String(n)` for a getter's result; `NaN + 1` stays NaN below. */
  function NumberText(n: Option<int>): string {
    match n
    case None => "NaN"
    case Some(i) => IntToString(i)
  }

  function PlusOne(n: Option<int>): Option<int> {
    match n
    case None => None
    case Some(i) => Some(i + 1)
  }

  /** `String(date.getFullYear())`: the year is not padded. */
  function YearText(d: Date): string {
    NumberText(FullYear(d))
  }

  /** `String(date.getMonth() + 1).padStart(2, '0')` */
  function MonthText(d: Date): string {
    PadStart2(NumberText(PlusOne(Month(d))))
  }

  /** `String(date.getDate()).padStart(2, '0')` */
  function DayText(d: Date): string {
    PadStart2(NumberText(DayOfMonth(d)))
  }

  /** The template of `getDateKey`: `{year}-{MM}-{DD}`. */
  function Dashed(year: string, month: string, day: string): string {
    year + "-" + month + "-" + day
  }

  /** `getDateKey`: the storage key of the day. Only an invalid date gets
      the key `NaN-NaN-NaN`. */
  function DateKey(d: Date): (k: string)
    ensures k == "NaN-NaN-NaN" <==> d.InvalidDate?
  {
    var y := YearText(d);
    var k := Dashed(y, MonthText(d), DayText(d));
    assert k[0] == y[0];
    k
  }

  /** The Sunday-first weekday table of `formatDate`. */
  const Weekdays: seq<string> := ["일", "월", "화", "수", "목", "금", "토"]

  /** `weekdays[date.getDay()]` as a template sees it: an index outside the
      table (NaN) yields `undefined`. */
  function WeekdayText(d: Date): string {
    match DayOfWeek(d)
    case Some(i) => if 0 <= i < |Weekdays| then Weekdays[i] else "undefined"
    case None => "undefined"
  }

  /** The template of `formatDate`: `{year}년 {MM}월 {DD}일 ({weekday})`. */
  function Display(year: string, month: string, day: string, weekday: string): string {
    year + "년 " + month + "월 " + day + "일 (" + weekday + ")"
  }

  /** `formatDate`. Only an invalid date displays as
      `NaN년 NaN월 NaN일 (undefined)`. */
  function FormatDate(d: Date): (f: string)
    ensures f == "NaN년 NaN월 NaN일 (undefined)" <==> d.InvalidDate?
  {
    var y := YearText(d);
    var f := Display(y, MonthText(d), DayText(d), WeekdayText(d));
    assert f[0] == y[0];
    f
  }

  // ---------------------------------------------------------------------
  // Reference definitions
  // ---------------------------------------------------------------------

  /** Exactly two decimal digits of a number below 100. */
  function TwoDigits(n: nat): (s: string)
    requires n < 100
  {
    [DigitChar(n / 10), DigitChar(n % 10)]
  }

  /** Two dates are the same day for storage purposes when both are invalid or
      they agree on year, month and day of the month. */
  predicate SameDay(d1: Date, d2: Date) {
    (d1.InvalidDate? && d2.InvalidDate?)
    || (d1.Local? && d2.Local? && d1.year == d2.year && d1.month == d2.month && d1.date == d2.date)
  }

  /** Reads a key `year-MM-DD` back into year, 1-based month and day. */
  function ParseDateKey(key: string): (r: Option<(int, int, int)>)
  {
    if |key| >= 7 && key[|key| - 6] == '-' && key[|key| - 3] == '-'
       && AllDigits(key[|key| - 5..|key| - 3]) && AllDigits(key[|key| - 2..])
    then
      match ParseInt(key[..|key| - 6])
      case None => None
      case Some(y) => Some((y, ParseDigits(key[|key| - 5..|key| - 3]), ParseDigits(key[|key| - 2..])))
    else None
  }

  // ---------------------------------------------------------------------
  // Properties
  // ---------------------------------------------------------------------

  /** `padStart(2, '0')` of a number below 100 is exactly its two digits. */
  lemma PadStartTwoDigits(n: nat)
    requires n < 100
    ensures PadStart2(IntToString(n)) == TwoDigits(n)
  {
    var s := NatToString(n);
    if n < 10 {
      assert s == [DigitChar(n)];
      assert PadStart2(s) == "0" + s;
      assert n / 10 == 0 && n % 10 == n;
    } else {
      assert n / 10 < 10;
      assert NatToString(n / 10) == [DigitChar(n / 10)];
      assert s == [DigitChar(n / 10), DigitChar(n % 10)];
    }
  }

  /** For a valid date the key is the unpadded year, a dash, the 1-based month
      in two digits, a dash and the day of the month in two digits. */
  lemma DateKeyShape(d: Date)
    requires d.Local? && InRange(d)
    ensures DateKey(d) == Dashed(IntToString(d.year), TwoDigits(d.month + 1), TwoDigits(d.date))
    ensures |DateKey(d)| == |IntToString(d.year)| + 6
  {
    var y, m, t := YearText(d), MonthText(d), DayText(d);
    assert y == IntToString(d.year);
    assert m == TwoDigits(d.month + 1) by { PadStartTwoDigits(d.month + 1); }
    assert t == TwoDigits(d.date) by { PadStartTwoDigits(d.date); }
  }

  /** The pattern `\d{4}-\d{2}-\d{2}`. */
  predicate KeyPattern(k: string) {
    |k| == 10 && k[4] == '-' && k[7] == '-'
    && AllDigits(k[..4]) && AllDigits(k[5..7]) && AllDigits(k[8..])
  }

  /** With a four-digit year the key matches `\d{4}-\d{2}-\d{2}`. */
  lemma DateKeyFourDigitYear(d: Date)
    requires d.Local? && InRange(d) && 1000 <= d.year <= 9999
    ensures KeyPattern(DateKey(d))
  {
    DateKeyShape(d);
    var ys, ms, ds := IntToString(d.year), TwoDigits(d.month + 1), TwoDigits(d.date);
    assert |ys| == 4 && AllDigits(ys) by {
      FourDigits(d.year);
      NatToStringDigits(d.year);
    }
    assert AllDigits(ms) && AllDigits(ds) by {
      ParseTwoDigits(d.month + 1);
      ParseTwoDigits(d.date);
    }
    DashedDigits(ys, ms, ds);
  }

  lemma FourDigits(y: nat)
    requires 1000 <= y <= 9999
    ensures |IntToString(y)| == 4
  {
    var a: nat := y / 10;
    var b: nat := a / 10;
    var c: nat := b / 10;
    assert 100 <= a < 1000 && 10 <= b < 100 && 1 <= c < 10;
    assert |NatToString(c)| == 1;
    assert |NatToString(b)| == 2 by { assert NatToString(b) == NatToString(c) + [DigitChar(b % 10)]; }
    assert |NatToString(a)| == 3 by { assert NatToString(a) == NatToString(b) + [DigitChar(a % 10)]; }
    assert NatToString(y) == NatToString(a) + [DigitChar(y % 10)];
  }

  lemma DashedDigits(ys: string, ms: string, ds: string)
    requires |ys| == 4 && |ms| == 2 && |ds| == 2
    requires AllDigits(ys) && AllDigits(ms) && AllDigits(ds)
    ensures KeyPattern(Dashed(ys, ms, ds))
  {
    var k := Dashed(ys, ms, ds);
    assert k[..4] == ys && k[5..7] == ms && k[8..] == ds;
  }

  /** Chronological order of valid dates: an earlier year, or the same year
      and an earlier month, or the same month and an earlier day. */
  predicate Before(d1: Date, d2: Date)
    requires d1.Local? && d2.Local?
  {
    d1.year < d2.year
    || (d1.year == d2.year && (d1.month < d2.month || (d1.month == d2.month && d1.date < d2.date)))
  }

  /** With four-digit years, comparing keys as plain strings orders days
      chronologically. */
  lemma DateKeyOrder(d1: Date, d2: Date)
    requires d1.Local? && InRange(d1) && 1000 <= d1.year <= 9999
    requires d2.Local? && InRange(d2) && 1000 <= d2.year <= 9999
    ensures LexLess(DateKey(d1), DateKey(d2)) <==> Before(d1, d2)
  {
    DateKeyShape(d1);
    DateKeyShape(d2);
    YearOrder(d1.year, d2.year);
    TwoDigitsOrder(d1.month + 1, d2.month + 1);
    TwoDigitsOrder(d1.date, d2.date);
    DashedOrder(IntToString(d1.year), TwoDigits(d1.month + 1), TwoDigits(d1.date),
                IntToString(d2.year), TwoDigits(d2.month + 1), TwoDigits(d2.date));
  }

  /** Four-digit years compare as strings the way they compare as numbers. */
  lemma YearOrder(y1: int, y2: int)
    requires 1000 <= y1 <= 9999 && 1000 <= y2 <= 9999
    ensures |IntToString(y1)| == |IntToString(y2)|
    ensures LexLess(IntToString(y1), IntToString(y2)) <==> y1 < y2
    ensures IntToString(y1) == IntToString(y2) <==> y1 == y2
  {
    FourDigits(y1);
    FourDigits(y2);
    ParseNatToString(y1);
    ParseNatToString(y2);
    DigitsLexOrder(NatToString(y1), NatToString(y2));
  }

  /** Two-digit fields compare as strings the way they compare as numbers. */
  lemma TwoDigitsOrder(n1: nat, n2: nat)
    requires n1 < 100 && n2 < 100
    ensures LexLess(TwoDigits(n1), TwoDigits(n2)) <==> n1 < n2
    ensures TwoDigits(n1) == TwoDigits(n2) <==> n1 == n2
  {
    ParseTwoDigits(n1);
    ParseTwoDigits(n2);
    DigitsLexOrder(TwoDigits(n1), TwoDigits(n2));
  }

  /** Keys of the shape `y-m-d` with year parts of one length and month parts
      of one length compare by year, then month, then day. */
  lemma DashedOrder(y1: string, m1: string, t1: string, y2: string, m2: string, t2: string)
    requires |y1| == |y2| && |m1| == |m2|
    ensures LexLess(Dashed(y1, m1, t1), Dashed(y2, m2, t2))
      <==> LexLess(y1, y2) || (y1 == y2 && (LexLess(m1, m2) || (m1 == m2 && LexLess(t1, t2))))
  {
    var s1, s2 := "-" + m1, "-" + m2;
    var u1, u2 := "-" + t1, "-" + t2;
    assert Dashed(y1, m1, t1) == y1 + (s1 + u1);
    assert Dashed(y2, m2, t2) == y2 + (s2 + u2);
    LexLessConcat(y1, s1 + u1, y2, s2 + u2);
    LexLessConcat(s1, u1, s2, u2);
    LexLessConcat("-", m1, "-", m2);
    LexLessConcat("-", t1, "-", t2);
    assert s1 == s2 ==> s1[1..] == s2[1..];
    assert s1[1..] == m1 && s2[1..] == m2;
  }

  /** Years below 1000 are not padded: 31 December 999 gets the key
      `999-12-31`, which does not match `\d{4}-\d{2}-\d{2}`. */
  lemma ShortYearKey()
    ensures DateKey(Local(999, 11, 31, 2)) == "999-12-31"
    ensures !KeyPattern(DateKey(Local(999, 11, 31, 2)))
  {
    DateKeyShape(Local(999, 11, 31, 2));
    assert IntToString(999) == "999" by {
      assert NatToString(99) == NatToString(9) + "9";
      assert NatToString(999) == NatToString(99) + "9";
    }
    assert TwoDigits(12) == "12";
    assert TwoDigits(31) == "31";
  }

  /** ... and so it sorts after the key `1000-01-01` of the next day. */
  lemma ShortYearSortsLate()
    ensures DateKey(Local(1000, 0, 1, 3)) == "1000-01-01"
    ensures LexLess(DateKey(Local(1000, 0, 1, 3)), DateKey(Local(999, 11, 31, 2)))
  {
    ShortYearKey();
    DateKeyShape(Local(1000, 0, 1, 3));
    assert IntToString(1000) == "1000" by {
      assert NatToString(10) == NatToString(1) + "0";
      assert NatToString(100) == NatToString(10) + "0";
      assert NatToString(1000) == NatToString(100) + "0";
    }
    assert TwoDigits(1) == "01";
  }

  /** Decoding a valid date's key gives back its year, 1-based month and day. */
  lemma DateKeyRoundTrip(d: Date)
    requires d.Local? && InRange(d)
    ensures ParseDateKey(DateKey(d)) == Some((d.year, d.month + 1, d.date))
  {
    DateKeyShape(d);
    ParseTwoDigits(d.month + 1);
    ParseTwoDigits(d.date);
    ParseIntToString(d.year);
    ParseDashed(IntToString(d.year), TwoDigits(d.month + 1), TwoDigits(d.date));
  }

  lemma ParseTwoDigits(n: nat)
    requires n < 100
    ensures AllDigits(TwoDigits(n)) && ParseDigits(TwoDigits(n)) == n
  {
    var s := TwoDigits(n);
    assert s[..1] == [DigitChar(n / 10)];
    assert s[..1][..0] == [];
  }

  lemma ParseDashed(ys: string, ms: string, ds: string)
    requires |ms| == 2 && |ds| == 2 && AllDigits(ms) && AllDigits(ds)
    ensures ParseDateKey(Dashed(ys, ms, ds))
      == match ParseInt(ys)
         case None => None
         case Some(y) => Some((y, ParseDigits(ms), ParseDigits(ds)))
  {
    var k := Dashed(ys, ms, ds);
    var n := |k|;
    assert k[..n - 6] == ys;
    assert k[n - 5..n - 3] == ms;
    assert k[n - 2..] == ds;
  }

  /** An invalid date's key `NaN-NaN-NaN` is not the key of any valid date. */
  lemma InvalidDateKey()
    ensures DateKey(InvalidDate) == "NaN-NaN-NaN"
    ensures ParseDateKey(DateKey(InvalidDate)) == None
  {
    var k := DateKey(InvalidDate);
    assert k[|k| - 2..] == "aN";
    assert !IsDigit(k[|k| - 2..][0]);
  }

  /** Equality of days is equality of keys: equal (year, month, day) give equal
      keys, and equal keys come only from the same day. */
  lemma SameDayIffSameKey(d1: Date, d2: Date)
    requires InRange(d1) && InRange(d2)
    ensures SameDay(d1, d2) <==> DateKey(d1) == DateKey(d2)
  {
    if DateKey(d1) == DateKey(d2) {
      if d1.Local? { DateKeyRoundTrip(d1); } else { InvalidDateKey(); }
      if d2.Local? { DateKeyRoundTrip(d2); } else { InvalidDateKey(); }
    }
  }

  /** The weekday shown is the table entry for the date's day of the week. */
  lemma WeekdayIsTableEntry(d: Date)
    requires d.Local? && InRange(d)
    ensures WeekdayText(d) in Weekdays
    ensures |WeekdayText(d)| == 1
  {
  }

  /** The display string of a valid date is the unpadded year followed by
      thirteen characters that spell month, day and weekday name. */
  lemma FormatDateShape(d: Date)
    requires d.Local? && InRange(d)
    ensures FormatDate(d) == Display(IntToString(d.year), TwoDigits(d.month + 1), TwoDigits(d.date), Weekdays[d.day])
    ensures |FormatDate(d)| == |IntToString(d.year)| + 13
  {
    var y, m, t, w := YearText(d), MonthText(d), DayText(d), WeekdayText(d);
    assert y == IntToString(d.year);
    assert m == TwoDigits(d.month + 1) by { PadStartTwoDigits(d.month + 1); }
    assert t == TwoDigits(d.date) by { PadStartTwoDigits(d.date); }
    assert w == Weekdays[d.day];
  }

  /** Two valid dates display alike exactly when they agree on year, month,
      day of the month and day of the week. */
  lemma FormatDateInjective(d1: Date, d2: Date)
    requires d1.Local? && InRange(d1) && d2.Local? && InRange(d2)
    ensures FormatDate(d1) == FormatDate(d2)
      <==> d1.year == d2.year && d1.month == d2.month && d1.date == d2.date && d1.day == d2.day
  {
    if FormatDate(d1) == FormatDate(d2) {
      FormatDateShape(d1);
      FormatDateShape(d2);
      SplitDisplay(IntToString(d1.year), TwoDigits(d1.month + 1), TwoDigits(d1.date), Weekdays[d1.day],
                   IntToString(d2.year), TwoDigits(d2.month + 1), TwoDigits(d2.date), Weekdays[d2.day]);
      assert d1.year == d2.year by { ParseIntToString(d1.year); ParseIntToString(d2.year); }
      assert d1.month == d2.month by { ParseTwoDigits(d1.month + 1); ParseTwoDigits(d2.month + 1); }
      assert d1.date == d2.date by { ParseTwoDigits(d1.date); ParseTwoDigits(d2.date); }
      WeekdaysDistinct(d1.day, d2.day);
    }
  }

  /** The seven weekday names are pairwise different. */
  lemma WeekdaysDistinct(i: nat, j: nat)
    requires i < 7 && j < 7 && Weekdays[i] == Weekdays[j]
    ensures i == j
  {
    assert Weekdays[i][0] == Weekdays[j][0];
  }

  lemma SplitDisplay(y1: string, m1: string, t1: string, w1: string,
                     y2: string, m2: string, t2: string, w2: string)
    requires |m1| == |m2| == 2 && |t1| == |t2| == 2 && |w1| == |w2| == 1
    requires Display(y1, m1, t1, w1) == Display(y2, m2, t2, w2)
    ensures y1 == y2 && m1 == m2 && t1 == t2 && w1 == w2
  {
    var f := Display(y1, m1, t1, w1);
    var g := Display(y2, m2, t2, w2);
    var n := |f|;
    assert f[..n - 13] == y1 && f[n - 11..n - 9] == m1 && f[n - 7..n - 5] == t1 && f[n - 2..n - 1] == w1;
    assert g[..n - 13] == y2 && g[n - 11..n - 9] == m2 && g[n - 7..n - 5] == t2 && g[n - 2..n - 1] == w2;
  }
}

/** The billing period: the calendar month in UTC (`calendar_period` of src/serving_limits.rs). */
module BillingPeriod {
  import opened Text

  const DAY: int := 86_400_000_000_000

  /** A UTC instant in the proleptic Gregorian calendar, to the nanosecond. */
  datatype DateTime = DateTime(year: int, month: int, day: int, nanos: int)

  datatype Period = Period(tag: string, start: DateTime, end: DateTime)

  predicate IsLeap(y: int) {
    y % 4 == 0 && (y % 100 != 0 || y % 400 == 0)
  }

  function DaysIn(y: int, m: int): int {
    if m == 2 then (if IsLeap(y) then 29 else 28)
    else if m == 4 || m == 6 || m == 9 || m == 11 then 30
    else 31
  }

  predicate Valid(t: DateTime) {
    1 <= t.month <= 12 && 1 <= t.day <= DaysIn(t.year, t.month) && 0 <= t.nanos < DAY
  }

  /** `start + Months::new(n)`, with the day clamped to the target month's length. */
  function AddMonths(t: DateTime, n: nat): DateTime {
    var k := 12 * t.year + t.month - 1 + n;
    var (y, m) := (k / 12, k % 12 + 1);
    DateTime(y, m, if t.day <= DaysIn(y, m) then t.day else DaysIn(y, m), t.nanos)
  }

  function Pad(width: nat, s: string): string
    decreases width - |s|
  {
    if |s| < width then Pad(width, "0" + s) else s
  }

  /** `{:04}` of a year: the sign counts toward the width. */
  function YearText(y: int): string {
    if y >= 0 then Pad(4, Decimal(y)) else "-" + Pad(3, Decimal(-y))
  }

  function CalendarPeriod(at: DateTime): Period
    requires Valid(at)
  {
    var start := DateTime(at.year, at.month, 1, 0);
    Period(YearText(at.year) + "-" + Pad(2, Decimal(at.month)), start, AddMonths(start, 1))
  }

  // ---------------------------------------------------------------- the time line

  /** Leap days are counted by rounding up, for years before 0 as well. */
  function DaysBeforeYear(y: int): int {
    365 * y + (y + 3) / 4 - (y + 99) / 100 + (y + 399) / 400
  }

  function DaysBeforeMonth(y: int, m: int): int
    requires m >= 1
  {
    if m == 1 then 0 else DaysBeforeMonth(y, m - 1) + DaysIn(y, m - 1)
  }

  /** Nanoseconds since the start of the year 0. */
  function Linear(t: DateTime): int
    requires t.month >= 1
  {
    (DaysBeforeYear(t.year) + DaysBeforeMonth(t.year, t.month) + t.day - 1) * DAY + t.nanos
  }

  lemma MultipleOf100(y: int, p: int)
    requires y == 100 * p
    ensures y % 100 == 0
  {
  }

  lemma MultipleOf4(y: int, p: int)
    requires y == 4 * p
    ensures y % 4 == 0
  {
  }

  lemma Multiples(y: int)
    ensures y % 400 == 0 ==> y % 100 == 0
    ensures y % 100 == 0 ==> y % 4 == 0
  {
    if y % 400 == 0 {
      MultipleOf100(y, 4 * (y / 400));
    }
    if y % 100 == 0 {
      MultipleOf4(y, 25 * (y / 100));
    }
  }

  lemma LeapStep(y: int, n: int)
    requires n == 4 || n == 100 || n == 400
    ensures (y + 1 + (n - 1)) / n - (y + (n - 1)) / n == if y % n == 0 then 1 else 0
  {
  }

  lemma YearLength(y: int)
    ensures DaysBeforeYear(y + 1) == DaysBeforeYear(y) + (if IsLeap(y) then 366 else 365)
  {
    LeapStep(y, 4);
    LeapStep(y, 100);
    LeapStep(y, 400);
    Multiples(y);
  }

  lemma YearAsMonths(y: int)
    ensures DaysBeforeMonth(y, 12) + DaysIn(y, 12) == if IsLeap(y) then 366 else 365
  {
    assert DaysBeforeMonth(y, 2) == 31;
    assert DaysBeforeMonth(y, 3) == 31 + DaysIn(y, 2);
    assert DaysBeforeMonth(y, 4) == DaysBeforeMonth(y, 3) + 31;
    assert DaysBeforeMonth(y, 5) == DaysBeforeMonth(y, 4) + 30;
    assert DaysBeforeMonth(y, 6) == DaysBeforeMonth(y, 5) + 31;
    assert DaysBeforeMonth(y, 7) == DaysBeforeMonth(y, 6) + 30;
    assert DaysBeforeMonth(y, 8) == DaysBeforeMonth(y, 7) + 31;
    assert DaysBeforeMonth(y, 9) == DaysBeforeMonth(y, 8) + 31;
    assert DaysBeforeMonth(y, 10) == DaysBeforeMonth(y, 9) + 30;
    assert DaysBeforeMonth(y, 11) == DaysBeforeMonth(y, 10) + 31;
    assert DaysBeforeMonth(y, 12) == DaysBeforeMonth(y, 11) + 30;
  }

  /** Month `k` counts from January of year 0. */
  function MonthStart(k: int): int {
    DaysBeforeYear(k / 12) + DaysBeforeMonth(k / 12, k % 12 + 1)
  }

  lemma MonthStep(k: int)
    ensures MonthStart(k + 1) == MonthStart(k) + DaysIn(k / 12, k % 12 + 1)
  {
    var y, m := k / 12, k % 12 + 1;
    if m == 12 {
      assert (k + 1) / 12 == y + 1 && (k + 1) % 12 == 0;
      YearLength(y);
      YearAsMonths(y);
    } else {
      assert (k + 1) / 12 == y && (k + 1) % 12 == m;
    }
  }

  lemma {:induction false} MonthsIncrease(j: int, k: int)
    requires j <= k
    ensures MonthStart(j) + 28 * (k - j) <= MonthStart(k)
    decreases k - j
  {
    if j >= k {
    } else {
      MonthsIncrease(j, k - 1);
      MonthStep(k - 1);
    }
  }

  function MonthOf(t: DateTime): int {
    12 * t.year + t.month - 1
  }

  lemma LinearInMonth(t: DateTime)
    requires Valid(t)
    ensures Linear(t) == (MonthStart(MonthOf(t)) + t.day - 1) * DAY + t.nanos
    ensures MonthStart(MonthOf(t)) * DAY <= Linear(t) < MonthStart(MonthOf(t) + 1) * DAY
  {
    assert MonthOf(t) / 12 == t.year && MonthOf(t) % 12 + 1 == t.month;
    MonthStep(MonthOf(t));
  }

  /** A period runs from the first instant of its month to the first of the next. */
  lemma PeriodBounds(at: DateTime)
    requires Valid(at)
    ensures var p := CalendarPeriod(at);
            && Valid(p.start) && Valid(p.end)
            && Linear(p.start) == MonthStart(MonthOf(at)) * DAY
            && Linear(p.end) == MonthStart(MonthOf(at) + 1) * DAY
            && MonthOf(p.end) == MonthOf(at) + 1
            && Linear(p.start) <= Linear(at) < Linear(p.end)
  {
    var p := CalendarPeriod(at);
    var k := MonthOf(at) + 1;
    assert p.end == DateTime(k / 12, k % 12 + 1, 1, 0);
    LinearInMonth(p.start);
    LinearInMonth(p.end);
    LinearInMonth(at);
  }

  /** Consecutive periods meet: the instant that ends one starts the next. */
  lemma PeriodsMeet(at: DateTime)
    requires Valid(at)
    ensures var p := CalendarPeriod(at);
            Valid(p.end) && CalendarPeriod(p.end).start == p.end && Linear(CalendarPeriod(p.end).end) > Linear(p.end)
  {
    PeriodBounds(at);
    PeriodBounds(CalendarPeriod(at).end);
  }

  // ---------------------------------------------------------------- labels

  lemma {:induction false} LeadingZero(s: string)
    requires forall i :: 0 <= i < |s| ==> IsDigit(s[i])
    ensures AllDigits("0" + s) && Value("0" + s) == Value(s)
  {
    var z := "0" + s;
    if s == [] {
      assert z[..0] == [];
    } else {
      LeadingZero(s[..|s| - 1]);
      assert z[..|z| - 1] == "0" + s[..|s| - 1];
    }
  }

  lemma {:induction false} PadKeepsValue(width: nat, s: string)
    requires AllDigits(s)
    ensures AllDigits(Pad(width, s)) && Value(Pad(width, s)) == Value(s)
    ensures |Pad(width, s)| == if |s| < width then width else |s|
    decreases width - |s|
  {
    if |s| >= width {
    } else {
      LeadingZero(s);
      PadKeepsValue(width, "0" + s);
    }
  }

  lemma YearTextInjective(x: int, y: int)
    requires YearText(x) == YearText(y)
    ensures x == y
  {
    forall n: int, w: nat | n >= 0
      ensures AllDigits(Pad(w, Decimal(n))) && Value(Pad(w, Decimal(n))) == n
    {
      DecimalValue(n);
      PadKeepsValue(w, Decimal(n));
    }
    assert forall n: int :: n >= 0 ==> IsDigit(YearText(n)[0]);
    if x < 0 && y < 0 {
      assert YearText(x)[1..] == Pad(3, Decimal(-x)) && YearText(y)[1..] == Pad(3, Decimal(-y));
    }
  }

  lemma MonthText(m: int)
    requires 1 <= m <= 12
    ensures |Pad(2, Decimal(m))| == 2 && AllDigits(Pad(2, Decimal(m))) && Value(Pad(2, Decimal(m))) == m
  {
    DecimalValue(m);
    PadKeepsValue(2, Decimal(m));
  }

  /** The label is `YYYY-MM` of the period's month: the year with its sign and at least four places, two for the month. */
  lemma LabelShape(at: DateTime) returns (year: string, month: string)
    requires Valid(at)
    ensures CalendarPeriod(at).tag == (if at.year < 0 then "-" else "") + year + "-" + month
    ensures AllDigits(year) && Value(year) == (if at.year < 0 then -at.year else at.year)
    ensures |year| >= (if at.year < 0 then 3 else 4) && (|year| > 4 ==> year[0] != '0')
    ensures AllDigits(month) && |month| == 2 && Value(month) == at.month
  {
    var n, w := if at.year < 0 then -at.year else at.year, if at.year < 0 then 3 else 4;
    year, month := Pad(w, Decimal(n)), Pad(2, Decimal(at.month));
    DecimalValue(n);
    PadKeepsValue(w, Decimal(n));
    DecimalNoLeadingZero(n);
    MonthText(at.month);
    assert "" + year == year;
  }

  lemma TagInjective(a: DateTime, b: DateTime)
    requires Valid(a) && Valid(b) && CalendarPeriod(a).tag == CalendarPeriod(b).tag
    ensures a.year == b.year && a.month == b.month
  {
    MonthText(a.month);
    MonthText(b.month);
    var s, t := CalendarPeriod(a).tag, CalendarPeriod(b).tag;
    assert s[..|s| - 3] == YearText(a.year) && t[..|t| - 3] == YearText(b.year);
    assert s[|s| - 2..] == Pad(2, Decimal(a.month)) && t[|t| - 2..] == Pad(2, Decimal(b.month));
    YearTextInjective(a.year, b.year);
  }

  predicate WithinMonth(k: int, n: int) {
    MonthStart(k) * DAY <= n < MonthStart(k + 1) * DAY
  }

  lemma PeriodEnds(a: DateTime)
    requires Valid(a)
    ensures Linear(CalendarPeriod(a).start) == MonthStart(MonthOf(a)) * DAY
    ensures Linear(CalendarPeriod(a).end) == MonthStart(MonthOf(a) + 1) * DAY
  {
    PeriodBounds(a);
  }

  /** An instant is in the window of a period exactly when it is in its month. */
  lemma WindowIsMonth(a: DateTime, n: int)
    requires Valid(a)
    ensures Linear(CalendarPeriod(a).start) <= n < Linear(CalendarPeriod(a).end) <==> WithinMonth(MonthOf(a), n)
  {
    PeriodEnds(a);
  }

  lemma InMonth(b: DateTime)
    requires Valid(b)
    ensures WithinMonth(MonthOf(b), Linear(b))
  {
    LinearInMonth(b);
  }

  /** An instant lies in the window of one month only. */
  lemma WindowsDisjoint(i: int, j: int, n: int)
    requires i != j && WithinMonth(j, n)
    ensures !WithinMonth(i, n)
  {
    if i < j {
      MonthsIncrease(i + 1, j);
    } else {
      MonthsIncrease(j + 1, i);
    }
  }

  lemma InstantInOneMonth(i: int, j: int, n: int)
    requires WithinMonth(j, n)
    ensures WithinMonth(i, n) <==> i == j
  {
    if i != j {
      WindowsDisjoint(i, j, n);
    }
  }

  lemma WindowIffMonth(a: DateTime, b: DateTime)
    requires Valid(a) && Valid(b)
    ensures Linear(CalendarPeriod(a).start) <= Linear(b) < Linear(CalendarPeriod(a).end) <==> MonthOf(a) == MonthOf(b)
  {
    InMonth(b);
    WindowIsMonth(a, Linear(b));
    InstantInOneMonth(MonthOf(a), MonthOf(b), Linear(b));
  }

  lemma PeriodIffMonth(a: DateTime, b: DateTime)
    requires Valid(a) && Valid(b)
    ensures CalendarPeriod(a).tag == CalendarPeriod(b).tag <==> MonthOf(a) == MonthOf(b)
    ensures CalendarPeriod(a) == CalendarPeriod(b) <==> MonthOf(a) == MonthOf(b)
  {
    if CalendarPeriod(a).tag == CalendarPeriod(b).tag {
      TagInjective(a, b);
    }
  }

  /** Two instants carry the same label exactly when they lie in the same window. */
  lemma SameLabelIffSameWindow(a: DateTime, b: DateTime)
    requires Valid(a) && Valid(b)
    ensures CalendarPeriod(a).tag == CalendarPeriod(b).tag
       <==> Linear(CalendarPeriod(a).start) <= Linear(b) < Linear(CalendarPeriod(a).end)
  {
    PeriodIffMonth(a, b);
    WindowIffMonth(a, b);
  }

  lemma DayOfMonth(k: int, d: int, r: int) returns (t: DateTime)
    requires MonthStart(k) <= d < MonthStart(k + 1) && 0 <= r < DAY
    ensures Valid(t) && Linear(t) == d * DAY + r
  {
    MonthStep(k);
    t := DateTime(k / 12, k % 12 + 1, d - MonthStart(k) + 1, r);
    LinearInMonth(t);
  }

  lemma YearZero(z: int) returns (k: int)
    requires z == 0
    ensures MonthStart(k) == 0
  {
    k := z;
  }

  lemma FirstMonth() returns (k: int)
    ensures MonthStart(k) <= 0 < MonthStart(k + 1)
  {
    k := YearZero(0);
    MonthsIncrease(k, k + 1);
  }

  lemma DayAfter(k: int, d: int) returns (j: int)
    requires MonthStart(k) <= d < MonthStart(k + 1)
    ensures MonthStart(j) <= d + 1 < MonthStart(j + 1)
  {
    MonthsIncrease(k + 1, k + 2);
    j := if d + 1 < MonthStart(k + 1) then k else k + 1;
  }

  lemma DayBefore(k: int, d: int) returns (j: int)
    requires MonthStart(k) <= d < MonthStart(k + 1)
    ensures MonthStart(j) <= d - 1 < MonthStart(j + 1)
  {
    MonthsIncrease(k - 1, k);
    j := if MonthStart(k) <= d - 1 then k else k - 1;
  }

  /** Every day lies in some month, before the year 0 as well as after. */
  lemma {:induction false} MonthContaining(d: int) returns (k: int)
    ensures MonthStart(k) <= d < MonthStart(k + 1)
    decreases if d < 0 then -d else d
  {
    if d == 0 {
      k := FirstMonth();
    } else if d > 0 {
      k := MonthContaining(d - 1);
      k := DayAfter(k, d - 1);
    } else {
      k := MonthContaining(d + 1);
      k := DayBefore(k, d + 1);
    }
  }

  /** Every point of the time line is some date and time. */
  lemma InstantAt(n: int) returns (t: DateTime)
    ensures Valid(t) && Linear(t) == n
  {
    var k := MonthContaining(n / DAY);
    t := DayOfMonth(k, n / DAY, n % DAY);
  }

  /** The periods cover the time line without overlap: each instant lies in one and only one. */
  lemma EveryInstantInOnePeriod(n: int) returns (t: DateTime)
    ensures Valid(t) && Linear(t) == n
    ensures Linear(CalendarPeriod(t).start) <= n < Linear(CalendarPeriod(t).end)
    ensures forall u | Valid(u) && Linear(CalendarPeriod(u).start) <= n < Linear(CalendarPeriod(u).end) ::
              CalendarPeriod(u) == CalendarPeriod(t)
  {
    t := InstantAt(n);
    WindowIffMonth(t, t);
    forall u | Valid(u) && Linear(CalendarPeriod(u).start) <= n < Linear(CalendarPeriod(u).end)
      ensures CalendarPeriod(u) == CalendarPeriod(t)
    {
      WindowIffMonth(u, t);
      PeriodIffMonth(u, t);
    }
  }
}

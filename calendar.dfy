/** Proleptic Gregorian calendar dates as Python's `datetime.date` holds
    them: years 1 to 9999, and day ordinals counted from 0001-01-01. */
module Calendar {
  import opened Wrappers

  datatype Date = Date(year: int, month: int, day: int)

  const MinYear: int := 1
  const MaxYear: int := 9999

  /** 0001-01-01, the date of ordinal 1 (`date.min`). */
  const FirstDate: Date := Date(1, 1, 1)

  predicate IsLeap(y: int) {
    y % 4 == 0 && (y % 100 != 0 || y % 400 == 0)
  }

  function DaysInYear(y: int): int {
    if IsLeap(y) then 366 else 365
  }

  function DaysInMonth(y: int, m: int): (r: int)
    requires 1 <= m <= 12
    ensures 28 <= r <= 31
  {
    if m == 2 then (if IsLeap(y) then 29 else 28)
    else if m == 4 || m == 6 || m == 9 || m == 11 then 30
    else 31
  }

  /** What `date(year, month, day)` accepts without ValueError. */
  predicate ValidDate(d: Date) {
    && MinYear <= d.year <= MaxYear
    && 1 <= d.month <= 12
    && 1 <= d.day <= DaysInMonth(d.year, d.month)
  }

  /** Days in the years before `y`, counted from year 1. */
  function DaysBeforeYear(y: int): nat
  {
    if y <= 1 then 0 else DaysBeforeYear(y - 1) + DaysInYear(y - 1)
  }

  /** Going from `x - 1` to `x` adds one multiple of `d` exactly when `x`
      is one. */
  lemma DivStep(x: int, d: int)
    requires x >= 1 && d >= 1
    ensures x / d - (x - 1) / d == (if x % d == 0 then 1 else 0)
  {
    var q, r := x / d, x % d;
    if r > 0 {
      DivUnique(x - 1, d, q, r - 1);
    } else {
      DivUnique(x - 1, d, q - 1, d - 1);
    }
  }

  /** The quotient is determined by any decomposition with a remainder in
      range. */
  lemma DivUnique(n: int, d: int, q: int, r: int)
    requires d >= 1 && 0 <= r < d && n == q * d + r
    ensures n / d == q
  {
    var q', r' := n / d, n % d;
    assert (q - q') * d == r' - r;
    MulAtLeast(q - q', d);
  }

  /** A non-zero multiple of `d` is at least `d` away from zero. */
  lemma {:induction false} MulAtLeast(a: int, d: int)
    requires d >= 1
    ensures a >= 1 ==> a * d >= d
    ensures a <= -1 ==> a * d <= -d
    decreases if a < 0 then -a else a
  {
    if a > 1 {
      MulAtLeast(a - 1, d);
      assert a * d == (a - 1) * d + d;
    } else if a < -1 {
      MulAtLeast(a + 1, d);
      assert a * d == (a + 1) * d - d;
    }
  }

  /** The leap rule as the closed form counts it: multiples of 4, less
      multiples of 100, plus multiples of 400. */
  lemma LeapCount(x: int)
    ensures (if x % 4 == 0 then 1 else 0) - (if x % 100 == 0 then 1 else 0) + (if x % 400 == 0 then 1 else 0)
         == DaysInYear(x) - 365
  {
    if x % 400 == 0 {
      ModMultiple(x, 400, 100);
    }
    if x % 100 == 0 {
      ModMultiple(x, 100, 4);
    }
  }

  /** A multiple of `m * k` is a multiple of `k`. */
  lemma ModMultiple(x: int, big: int, k: int)
    requires k >= 1 && big % k == 0 && big >= k && x % big == 0
    ensures x % k == 0
  {
    var a, b := x / big, big / k;
    assert x == a * big;
    assert big == b * k;
    assert x == (a * b) * k;
    ModUnique(x, k, a * b);
  }

  /** A number that is `q * d` leaves no remainder modulo `d`. */
  lemma ModUnique(n: int, d: int, q: int)
    requires d >= 1 && n == q * d
    ensures n % d == 0
  {
    DivUnique(n, d, q, 0);
  }

  /** Python's closed form for the days before year `y`. */
  lemma {:induction false} DaysBeforeYearClosedForm(y: int)
    requires y >= 1
    ensures DaysBeforeYear(y) == 365 * (y - 1) + (y - 1) / 4 - (y - 1) / 100 + (y - 1) / 400
  {
    if y > 1 {
      DaysBeforeYearClosedForm(y - 1);
      var x := y - 1;
      DivStep(x, 4);
      DivStep(x, 100);
      DivStep(x, 400);
      LeapCount(x);
    }
  }

  /** Days in the months of year `y` before month `m`. */
  function DaysBeforeMonth(y: int, m: int): nat
    requires 1 <= m <= 12
  {
    if m == 1 then 0 else DaysBeforeMonth(y, m - 1) + DaysInMonth(y, m - 1)
  }

  /** `d.toordinal()`: 0001-01-01 is day 1. */
  function Ordinal(d: Date): (r: int)
    requires ValidDate(d)
    ensures r >= 1
    ensures r == 1 <==> d == FirstDate
  {
    DaysBeforeYear(d.year) + DaysBeforeMonth(d.year, d.month) + d.day
  }

  /** January to November of a year hold all its days but December's 31. */
  lemma DaysBeforeDecember(y: int)
    ensures DaysBeforeMonth(y, 12) + 31 == DaysInYear(y)
  {
    assert DaysBeforeMonth(y, 2) == 31;
    assert DaysBeforeMonth(y, 3) == 31 + DaysInMonth(y, 2);
    assert DaysBeforeMonth(y, 4) == 62 + DaysInMonth(y, 2);
    assert DaysBeforeMonth(y, 5) == 92 + DaysInMonth(y, 2);
    assert DaysBeforeMonth(y, 6) == 123 + DaysInMonth(y, 2);
    assert DaysBeforeMonth(y, 7) == 153 + DaysInMonth(y, 2);
    assert DaysBeforeMonth(y, 8) == 184 + DaysInMonth(y, 2);
    assert DaysBeforeMonth(y, 9) == 215 + DaysInMonth(y, 2);
    assert DaysBeforeMonth(y, 10) == 245 + DaysInMonth(y, 2);
    assert DaysBeforeMonth(y, 11) == 276 + DaysInMonth(y, 2);
    assert DaysBeforeMonth(y, 12) == 306 + DaysInMonth(y, 2);
  }

  /** The last day of the month before `m` is the day before the 1st of
      `m`. */
  lemma MonthEndBefore(y: int, m: int)
    requires MinYear <= y <= MaxYear && 1 < m <= 12
    ensures ValidDate(Date(y, m - 1, DaysInMonth(y, m - 1)))
    ensures Ordinal(Date(y, m - 1, DaysInMonth(y, m - 1))) == Ordinal(Date(y, m, 1)) - 1
  {
  }

  /** 31 December is the day before 1 January of the next year. */
  lemma YearEndBefore(y: int)
    requires MinYear < y <= MaxYear
    ensures ValidDate(Date(y - 1, 12, 31))
    ensures Ordinal(Date(y - 1, 12, 31)) == Ordinal(Date(y, 1, 1)) - 1
  {
    DaysBeforeDecember(y - 1);
  }

  /** The day before `d`. */
  function PrevDay(d: Date): (r: Date)
    requires ValidDate(d) && d != FirstDate
    ensures ValidDate(r)
    ensures Ordinal(r) == Ordinal(d) - 1
  {
    if d.day > 1 then d.(day := d.day - 1)
    else if d.month > 1 then
      MonthEndBefore(d.year, d.month);
      Date(d.year, d.month - 1, DaysInMonth(d.year, d.month - 1))
    else
      YearEndBefore(d.year);
      Date(d.year - 1, 12, 31)
  }

  /** `d - timedelta(days=n)`; `None` is the OverflowError raised when the
      result would fall before 0001-01-01. */
  function SubtractDays(d: Date, n: nat): (r: Option<Date>)
    requires ValidDate(d)
    ensures r.Some? <==> n < Ordinal(d)
    ensures r.Some? ==> ValidDate(r.value) && Ordinal(r.value) == Ordinal(d) - n
    decreases n
  {
    if n == 0 then Some(d)
    else if d == FirstDate then None
    else SubtractDays(PrevDay(d), n - 1)
  }
}

/** The proleptic Gregorian calendar that Python's `datetime` uses, counted in
    days from 1970-01-01 (the Unix epoch, UTC). */
module Calendar {

  predicate IsLeapYear(y: int) {
    y % 4 == 0 && (y % 100 != 0 || y % 400 == 0)
  }

  function DaysInYear(y: int): nat {
    if IsLeapYear(y) then 366 else 365
  }

  function DaysInMonth(y: int, m: int): nat
    requires 1 <= m <= 12
  {
    if m == 2 then (if IsLeapYear(y) then 29 else 28)
    else if m == 4 || m == 6 || m == 9 || m == 11 then 30
    else 31
  }

  /** Days of a common year that precede the first of each month (index 12 is the whole year). */
  const CommonDaysBeforeMonth: seq<nat> := [0, 31, 59, 90, 120, 151, 181, 212, 243, 273, 304, 334, 365]

  /** Days of year `y` before the first day of month `m`; month 13 stands for the next new year. */
  function DaysBeforeMonth(y: int, m: int): nat
    requires 1 <= m <= 13
  {
    CommonDaysBeforeMonth[m - 1] + (if m > 2 && IsLeapYear(y) then 1 else 0)
  }

  /** Leap years among 1 .. n. */
  function LeapYearsThrough(n: nat): nat {
    n / 4 - n / 100 + n / 400
  }

  /** Days from 1970-01-01 to January 1st of year `y` (negative before 1970). */
  function DaysBeforeYear(y: int): int
    requires y >= 1
  {
    365 * (y - 1970) + LeapYearsThrough(y - 1) - LeapYearsThrough(1969)
  }

  lemma MonthStep(y: int, m: int)
    requires 1 <= m <= 12
    ensures DaysBeforeMonth(y, m + 1) == DaysBeforeMonth(y, m) + DaysInMonth(y, m)
  {
  }

  lemma MonthsFillYear(y: int)
    ensures DaysBeforeMonth(y, 13) == DaysInYear(y)
  {
  }

  lemma {:induction false} DaysBeforeMonthMonotone(y: int, m1: int, m2: int)
    requires 1 <= m1 <= m2 <= 13
    ensures DaysBeforeMonth(y, m1) <= DaysBeforeMonth(y, m2)
    decreases m2 - m1
  {
    if m1 < m2 {
      MonthStep(y, m1);
      DaysBeforeMonthMonotone(y, m1 + 1, m2);
    }
  }

  /** One more year adds exactly that year's length. */
  lemma YearStep(y: int)
    requires y >= 1
    ensures DaysBeforeYear(y + 1) == DaysBeforeYear(y) + DaysInYear(y)
  {
    LeapYearStep(y - 1);
  }

  /** Counting one more year adds one exactly when it is a leap year. */
  lemma LeapYearStep(n: nat)
    ensures LeapYearsThrough(n + 1) == LeapYearsThrough(n) + (if IsLeapYear(n + 1) then 1 else 0)
  {
    DivNext(n, 4);
    DivNext(n, 100);
    DivNext(n, 400);
    DivisibilityChain(n + 1);
  }

  /** A multiple of 400 is a multiple of 100, which is a multiple of 4. */
  lemma DivisibilityChain(m: nat)
    ensures m % 400 == 0 ==> m % 100 == 0
    ensures m % 100 == 0 ==> m % 4 == 0
  {
    if m % 400 == 0 {
      DivUnique(m, 100, 4 * (m / 400), 0);
    }
    if m % 100 == 0 {
      DivUnique(m, 4, 25 * (m / 100), 0);
    }
  }

  lemma DivNext(n: nat, k: nat)
    requires k > 0
    ensures (n + 1) / k == n / k + (if (n + 1) % k == 0 then 1 else 0)
  {
    var q, r := n / k, n % k;
    if r + 1 == k {
      DivUnique(n + 1, k, q + 1, 0);
    } else {
      DivUnique(n + 1, k, q, r + 1);
    }
  }

  lemma DivUnique(n: int, k: int, q: int, r: int)
    requires k > 0 && n == q * k + r && 0 <= r < k
    ensures n / k == q && n % k == r
  {
    var q', r' := n / k, n % k;
    assert n == q' * k + r';
    var d := q - q';
    assert d * k == r' - r;

  }

  lemma {:induction false} DaysBeforeYearMonotone(y1: int, y2: int)
    requires 1 <= y1 < y2
    ensures DaysBeforeYear(y1) + DaysInYear(y1) <= DaysBeforeYear(y2)
    decreases y2 - y1
  {
    YearStep(y1);
    if y1 + 1 < y2 {
      DaysBeforeYearMonotone(y1 + 1, y2);
    }
  }

  /** Every year has at most 366 days, so `k` years from 1970 span at most `366 * k` days. */
  lemma {:induction false} DaysBeforeYearBound(k: nat)
    ensures 0 <= DaysBeforeYear(1970 + k) <= 366 * k
  {
    if k > 0 {
      DaysBeforeYearBound(k - 1);
      YearStep(1970 + k - 1);
    }
  }

  /** Walks forward from year `y` to the year containing day `days`. */
  function YearFrom(days: int, y: int): (r: int)
    requires y >= 1 && DaysBeforeYear(y) <= days
    ensures y <= r && DaysBeforeYear(r) <= days < DaysBeforeYear(r + 1)
    decreases days - DaysBeforeYear(y)
  {
    YearStep(y);
    if days < DaysBeforeYear(y + 1) then y else YearFrom(days, y + 1)
  }

  /** The year containing day `days` (counted from 1970-01-01). The walk starts
      from an estimate that is never past the answer. */
  function YearOf(days: nat): (y: int)
    ensures 1970 <= y && DaysBeforeYear(y) <= days < DaysBeforeYear(y + 1)
  {
    var k := days / 366;
    DaysBeforeYearBound(k);
    YearFrom(days, 1970 + k)
  }

  /** Walks forward from month `m` to the month containing day-of-year `doy`. */
  function MonthFrom(y: int, doy: int, m: int): (r: int)
    requires 1 <= m <= 12 && DaysBeforeMonth(y, m) <= doy < DaysInYear(y)
    ensures m <= r <= 12 && DaysBeforeMonth(y, r) <= doy < DaysBeforeMonth(y, r + 1)
    decreases 12 - m
  {
    MonthsFillYear(y);
    if m == 12 || doy < DaysBeforeMonth(y, m + 1) then m else MonthFrom(y, doy, m + 1)
  }
}

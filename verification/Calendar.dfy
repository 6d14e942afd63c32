/** The proleptic Gregorian calendar as a day count: day 0 is 0001-01-01. */
module Calendar {

  datatype Date = Date(year: nat, month: nat, day: nat)

  predicate IsLeap(y: nat) { y % 4 == 0 && (y % 100 != 0 || y % 400 == 0) }

  function DaysInYear(y: nat): nat { if IsLeap(y) then 366 else 365 }

  function DaysInMonth(y: nat, m: nat): nat {
    if m == 2 then (if IsLeap(y) then 29 else 28)
    else if m == 4 || m == 6 || m == 9 || m == 11 then 30
    else 31
  }

  /** Days between 0001-01-01 and the first day of year `y`. */
  function DaysBeforeYear(y: nat): nat
    requires y >= 1
  {
    365 * (y - 1) + (y - 1) / 4 - (y - 1) / 100 + (y - 1) / 400
  }

  function DaysBeforeMonth(y: nat, m: nat): nat
    requires 1 <= m <= 13
  {
    if m == 1 then 0 else DaysBeforeMonth(y, m - 1) + DaysInMonth(y, m - 1)
  }

  predicate ValidDate(d: Date) {
    d.year >= 1 && 1 <= d.month <= 12 && 1 <= d.day <= DaysInMonth(d.year, d.month)
  }

  function DayNumber(d: Date): nat
    requires ValidDate(d)
  {
    DaysBeforeYear(d.year) + DaysBeforeMonth(d.year, d.month) + d.day - 1
  }

  lemma YearLength(y: nat)
    requires y >= 1
    ensures DaysBeforeYear(y + 1) == DaysBeforeYear(y) + DaysInYear(y)
  {
    FloorStep4(y);
    FloorStep100(y);
    FloorStep400(y);
    if y % 100 == 0 { Multiple(y / 100, 25, 4); }
    if y % 400 == 0 { Multiple(y / 400, 4, 100); }
  }

  lemma Multiple(k: nat, a: nat, b: nat)
    requires b == 4 || b == 100
    ensures k * (a * b) % b == 0
  {
    assert k * (a * b) == (k * a) * b;
  }

  lemma FloorStep4(y: nat)
    requires y >= 1
    ensures y / 4 == (y - 1) / 4 + if y % 4 == 0 then 1 else 0
  {
  }

  lemma FloorStep100(y: nat)
    requires y >= 1
    ensures y / 100 == (y - 1) / 100 + if y % 100 == 0 then 1 else 0
  {
  }

  lemma FloorStep400(y: nat)
    requires y >= 1
    ensures y / 400 == (y - 1) / 400 + if y % 400 == 0 then 1 else 0
  {
  }

  lemma {:induction false} YearsAreOrdered(a: nat, b: nat)
    requires 1 <= a <= b
    ensures DaysBeforeYear(a) <= DaysBeforeYear(b)
    decreases b - a
  {
    if a < b {
      YearLength(b - 1);
      YearsAreOrdered(a, b - 1);
    }
  }

  lemma TwelveMonthsMakeAYear(y: nat)
    ensures DaysBeforeMonth(y, 13) == DaysInYear(y)
  {
    var f := DaysInMonth(y, 2);
    assert DaysBeforeMonth(y, 2) == 31;
    assert DaysBeforeMonth(y, 3) == 31 + f;
    assert DaysBeforeMonth(y, 5) == 92 + f;
    assert DaysBeforeMonth(y, 7) == 153 + f;
    assert DaysBeforeMonth(y, 9) == 215 + f;
    assert DaysBeforeMonth(y, 11) == 276 + f;
    assert DaysBeforeMonth(y, 13) == 337 + f;
  }

  lemma {:induction false} MonthsAreOrdered(y: nat, a: nat, b: nat)
    requires 1 <= a <= b <= 13
    ensures DaysBeforeMonth(y, a) <= DaysBeforeMonth(y, b)
    decreases b - a
  {
    if a < b {
      MonthsAreOrdered(y, a, b - 1);
    }
  }

  /** The year, not before `y`, in which day `n` falls. */
  function YearOf(n: nat, y: nat): (r: nat)
    requires y >= 1 && DaysBeforeYear(y) <= n
    ensures r >= y && DaysBeforeYear(r) <= n < DaysBeforeYear(r + 1)
    decreases n - DaysBeforeYear(y)
  {
    YearLength(y);
    if n < DaysBeforeYear(y + 1) then y else YearOf(n, y + 1)
  }

  /** The month, not before `m`, in which the `k`-th day of year `y` falls. */
  function MonthOf(y: nat, k: nat, m: nat): (r: nat)
    requires 1 <= m <= 12 && DaysBeforeMonth(y, m) <= k < DaysInYear(y)
    ensures m <= r <= 12 && DaysBeforeMonth(y, r) <= k < DaysBeforeMonth(y, r + 1)
    decreases 12 - m
  {
    TwelveMonthsMakeAYear(y);
    if k < DaysBeforeMonth(y, m + 1) then m else MonthOf(y, k, m + 1)
  }

  /** The calendar date of day `n`; counting its days back gives `n`. */
  function DateOf(n: nat): (d: Date)
    ensures ValidDate(d) && DayNumber(d) == n
  {
    var y := YearOf(n, 1);
    YearLength(y);
    var k := n - DaysBeforeYear(y);
    var m := MonthOf(y, k, 1);
    Date(y, m, k - DaysBeforeMonth(y, m) + 1)
  }

  /** No two dates share a day number, so `DateOf` is the only inverse of `DayNumber`. */
  lemma DayNumberIsInjective(a: Date, b: Date)
    requires ValidDate(a) && ValidDate(b) && DayNumber(a) == DayNumber(b)
    ensures a == b
  {
    SameYear(a, b);
    if a.month < b.month { MonthsAreOrdered(a.year, a.month + 1, b.month); }
    if b.month < a.month { MonthsAreOrdered(a.year, b.month + 1, a.month); }
  }

  lemma SameYear(a: Date, b: Date)
    requires ValidDate(a) && ValidDate(b) && DayNumber(a) == DayNumber(b)
    ensures a.year == b.year
  {
    hide DaysBeforeYear, DayNumber;
    DayWithinYear(a);
    DayWithinYear(b);
    if a.year < b.year { YearsAreOrdered(a.year + 1, b.year); }
    if b.year < a.year { YearsAreOrdered(b.year + 1, a.year); }
  }

  lemma DayWithinYear(d: Date)
    requires ValidDate(d)
    ensures DaysBeforeYear(d.year) <= DayNumber(d) < DaysBeforeYear(d.year + 1)
  {
    YearLength(d.year);
    TwelveMonthsMakeAYear(d.year);
    MonthsAreOrdered(d.year, d.month + 1, 13);
  }

  const UNIX_EPOCH_DAY := DaysBeforeYear(1970)

  // ----- the calendar as one knows it -----

  /** The lengths of the months, leap years being the multiples of 4 but of the centuries only each
      fourth. */
  lemma MonthLengths(y: nat)
    ensures forall m :: m in [1, 3, 5, 7, 8, 10, 12] ==> DaysInMonth(y, m) == 31
    ensures forall m :: m in [4, 6, 9, 11] ==> DaysInMonth(y, m) == 30
    ensures y % 4 != 0 ==> DaysInMonth(y, 2) == 28
    ensures y % 4 == 0 && y % 100 != 0 ==> DaysInMonth(y, 2) == 29
    ensures y % 100 == 0 && y % 400 != 0 ==> DaysInMonth(y, 2) == 28
    ensures y % 400 == 0 ==> DaysInMonth(y, 2) == 29
  {
    if y % 400 == 0 { Multiple(y / 400, 4, 100); Multiple(y / 400, 100, 4); }
  }

  function NextDate(d: Date): Date {
    if d.day < DaysInMonth(d.year, d.month) then d.(day := d.day + 1)
    else if d.month < 12 then Date(d.year, d.month + 1, 1)
    else Date(d.year + 1, 1, 1)
  }

  /** Days are counted one by one from 0001-01-01. */
  lemma DaysAreCounted(d: Date)
    requires ValidDate(d)
    ensures ValidDate(NextDate(d)) && DayNumber(NextDate(d)) == DayNumber(d) + 1
  {
    YearLength(d.year);
    TwelveMonthsMakeAYear(d.year);
    hide DaysBeforeYear, DaysInYear;
    if d.day == DaysInMonth(d.year, d.month) && d.month == 12 {
      assert DaysBeforeMonth(d.year, 13) == DaysBeforeMonth(d.year, 12) + 31;
    }
  }

  /** Four centuries have 146097 days. */
  lemma FourCenturies(y: nat)
    requires y >= 1
    ensures DaysBeforeYear(y + 400) == DaysBeforeYear(y) + 146_097
  {
    Centuries(y - 1);
  }

  lemma Centuries(n: nat)
    ensures (n + 400) / 4 == n / 4 + 100
    ensures (n + 400) / 100 == n / 100 + 4
    ensures (n + 400) / 400 == n / 400 + 1
  {
  }

  /** The first day, the epoch, and some days around leap days. */
  lemma UnixEpoch()
    ensures DayNumber(Date(1, 1, 1)) == 0
    ensures UNIX_EPOCH_DAY == DayNumber(Date(1970, 1, 1)) == 719_162
    ensures DayNumber(Date(2000, 2, 29)) == 719_162 + 11_016
    ensures DayNumber(Date(2024, 12, 31)) == 719_162 + 20_088
    ensures DayNumber(Date(1900, 3, 1)) == 719_162 - 25_508
  {
    JanuaryAndMarch(1970);
    JanuaryAndMarch(2000);
    JanuaryAndMarch(1900);
    TwelveMonthsMakeAYear(2024);
    assert DaysBeforeMonth(2024, 13) == DaysBeforeMonth(2024, 12) + 31;
  }

  lemma JanuaryAndMarch(y: nat)
    ensures DaysBeforeMonth(y, 1) == 0 && DaysBeforeMonth(y, 2) == 31
    ensures DaysBeforeMonth(y, 3) == if IsLeap(y) then 60 else 59
  {
  }
}

/** commonlibs.c: 64-by-32 division and the UTC date text. */
module Calendar {
  import opened CTypes

  // ----- udiv64_32_full -----

  function Pow2(n: nat): (p: nat)
    ensures p > 0
  {
    if n == 0 then 1 else 2 * Pow2(n - 1)
  }

  lemma AtLeastOnce(k: int, d: int)
    requires k >= 1 && d >= 0
    ensures k * d >= d
  {
  }

  lemma DivModUnique(n: nat, d: nat, q: nat, r: nat)
    requires d > 0 && n == q * d + r && r < d
    ensures n / d == q && n % d == r
  {
    var k := n / d;
    assert n == k * d + n % d && (k - q) * d == r - n % d;
    if k > q {
      AtLeastOnce(k - q, d);
    } else if k < q {
      AtLeastOnce(q - k, d);
    }
  }

  /** One more bit: `n >> i` is twice `n >> (i + 1)` plus that bit. */
  lemma NextBit(n: nat, p: nat)
    requires p > 0
    ensures n / p == 2 * (n / (2 * p)) + n / p % 2
  {
    var x := n / p;
    var y, z := x / 2, x % 2;
    assert n == x * p + n % p;
    assert x * p == y * (2 * p) + z * p;
    assert z * p + n % p < 2 * p;
    DivModUnique(n, 2 * p, y, z * p + n % p);
  }

  /** The state of the division when the bits of `n` from weight `p` up have been consumed. */
  ghost predicate Dividing(n: nat, d: nat, p: nat, q: nat, r: nat, quotient: nat)
    requires p > 0
  {
    if d != 0 then n / p == quotient * d + r && r < d && q == quotient * p
    else r == n / p && q == Pow2(64) - p
  }

  lemma DivisionStep(n: nat, d: nat, p: nat, q: nat, r: nat, quotient: nat)
    requires p > 0 && Dividing(n, d, 2 * p, q, r, quotient)
    ensures var next := 2 * r + n / p % 2;
      if next >= d then Dividing(n, d, p, q + p, next - d, 2 * quotient + 1) else Dividing(n, d, p, q, next, 2 * quotient)
  {
    hide Pow2;
    NextBit(n, p);
    if d != 0 {
      DividesStep(n / (2 * p), n / p % 2, n / p, d, quotient, r);
      DoubleTimes(quotient, p);
    }
  }

  lemma DoubleTimes(k: int, x: int)
    ensures (2 * k) * x == 2 * (k * x) && k * (2 * x) == 2 * (k * x)
    ensures (2 * k + 1) * x == 2 * (k * x) + x
  {
    assert (2 * k + 1) * x == (2 * k) * x + x;
  }

  /** Division with remainder when the dividend doubles and gains a bit. */
  lemma DividesStep(high: nat, bit: nat, all: nat, d: nat, quotient: nat, r: nat)
    requires d > 0 && high == quotient * d + r && r < d && all == 2 * high + bit && bit < 2
    ensures var next := 2 * r + bit;
      if next >= d then all == (2 * quotient + 1) * d + (next - d) && next - d < d else all == (2 * quotient) * d + next
  {
    DoubleTimes(quotient, d);
  }

  /** Shift-subtract division; a zero divisor gives all ones and the low word of `n`. */
  method Udiv64(n: nat, d: word) returns (q: nat, rem: word)
    requires n < Pow2(64)
    ensures d != 0 ==> q == n / d && rem == n % d
    ensures d == 0 ==> q == Pow2(64) - 1 && rem == n % 0x1_0000_0000
  {
    hide Pow2;
    q := 0;
    var r: nat := 0;
    ghost var quotient: nat := 0;
    DivModUnique(n, Pow2(64), 0, n);
    var i := 63;
    while i >= 0
      invariant -1 <= i <= 63 && Dividing(n, d, Pow2(i + 1), q, r, quotient)
    {
      hide Dividing;
      Doubles(i);
      DivisionStep(n, d, Pow2(i), q, r, quotient);
      r := 2 * r + n / Pow2(i) % 2;
      if r >= d {
        r := r - d;
        q := q + Pow2(i);
        quotient := 2 * quotient + 1;
      } else {
        quotient := 2 * quotient;
      }
      i := i - 1;
    }
    Doubles(0);
    if d != 0 {
      DivModUnique(n, d, quotient, r);
    }
    rem := r % 0x1_0000_0000;
  }

  lemma Doubles(i: nat)
    ensures Pow2(i + 1) == 2 * Pow2(i) && Pow2(0) == 1
  {
  }

  // ----- the Gregorian calendar -----

  predicate IsLeapYear(y: int) {
    if y % 400 == 0 then true else if y % 100 == 0 then false else y % 4 == 0
  }

  function DaysInYear(y: int): nat {
    if IsLeapYear(y) then 366 else 365
  }

  const MONTH_DAYS: seq<nat> := [31, 28, 31, 30, 31, 30, 31, 31, 30, 31, 30, 31]

  function DaysInMonth(y: int, m: nat): nat
    requires m < 12
  {
    if m == 1 && IsLeapYear(y) then 29 else MONTH_DAYS[m]
  }

  /** Days from the first of January 1970 to the first of January of `y`. */
  function YearStart(y: nat): nat
    requires y >= 1970
  {
    if y == 1970 then 0 else YearStart(y - 1) + DaysInYear(y - 1)
  }

  /** Days from the first of January to the first day of month `m`. */
  function MonthStart(y: int, m: nat): nat
    requires m <= 12
  {
    if m == 0 then 0 else MonthStart(y, m - 1) + DaysInMonth(y, m - 1)
  }

  /** Months and days count from 0. */
  datatype Date = Date(year: nat, month: nat, day: nat)

  predicate ValidDate(d: Date) {
    d.year >= 1970 && d.month < 12 && d.day < DaysInMonth(d.year, d.month)
  }

  /** Days since the first of January 1970. */
  function DayNumber(d: Date): nat
    requires ValidDate(d)
  {
    YearStart(d.year) + MonthStart(d.year, d.month) + d.day
  }

  lemma Carry4(y: nat)
    requires y > 0
    ensures y / 4 - (y - 1) / 4 == if y % 4 == 0 then 1 else 0
  {
  }

  lemma Carry100(y: nat)
    requires y > 0
    ensures y / 100 - (y - 1) / 100 == if y % 100 == 0 then 1 else 0
    ensures y % 100 == 0 ==> y % 4 == 0
  {
    assert y == 4 * (25 * (y / 100)) + y % 100;
  }

  lemma Carry400(y: nat)
    requires y > 0
    ensures y / 400 - (y - 1) / 400 == if y % 400 == 0 then 1 else 0
    ensures y % 400 == 0 ==> y % 100 == 0
  {
    assert y == 100 * (4 * (y / 400)) + y % 400;
  }

  /** The leap years up to `y`, counted by division. */
  function LeapCount(y: nat): int {
    y / 4 - y / 100 + y / 400
  }

  lemma DaysByCount(y: nat)
    requires y > 0
    ensures DaysInYear(y) == 365 + LeapCount(y) - LeapCount(y - 1)
  {
    Carry4(y);
    Carry100(y);
    Carry400(y);
  }

  lemma YearSteps(y: nat)
    requires y >= 1970
    ensures YearStart(y) == if y == 1970 then 0 else YearStart(y - 1) + DaysInYear(y - 1)
    ensures LeapCount(1969) == 477
  {
  }

  /** The closed form: 365 days a year, and one more for every leap year since. */
  lemma {:induction false} YearStartClosedForm(y: nat)
    requires y >= 1970
    ensures YearStart(y) == 365 * (y - 1970) + LeapCount(y - 1) - 477
  {
    hide YearStart, DaysInYear, IsLeapYear, LeapCount;
    YearSteps(y);
    if y > 1970 {
      YearStartClosedForm(y - 1);
      DaysByCount(y - 1);
    }
  }

  lemma YearHasItsMonths(y: int)
    ensures MonthStart(y, 12) == DaysInYear(y)
  {
    var feb := DaysInMonth(y, 1);
    assert MonthStart(y, 1) == 31;
    assert MonthStart(y, 2) == 31 + feb;
    assert MonthStart(y, 3) == 62 + feb;
    assert MonthStart(y, 4) == 92 + feb;
    assert MonthStart(y, 5) == 123 + feb;
    assert MonthStart(y, 6) == 153 + feb;
    assert MonthStart(y, 7) == 184 + feb;
    assert MonthStart(y, 8) == 215 + feb;
    assert MonthStart(y, 9) == 245 + feb;
    assert MonthStart(y, 10) == 276 + feb;
    assert MonthStart(y, 11) == 306 + feb;
  }

  lemma {:induction false} MonthsOrdered(y: int, m: nat, n: nat)
    requires m < n <= 12
    ensures MonthStart(y, m) + DaysInMonth(y, m) <= MonthStart(y, n)
  {
    if m < n - 1 {
      MonthsOrdered(y, m, n - 1);
    }
  }

  lemma {:induction false} YearsOrdered(y: nat, z: nat)
    requires 1970 <= y < z
    ensures YearStart(y) + DaysInYear(y) <= YearStart(z)
  {
    if y < z - 1 {
      YearsOrdered(y, z - 1);
    }
  }

  lemma WithinYear(d: Date)
    requires ValidDate(d)
    ensures DayNumber(d) < YearStart(d.year) + DaysInYear(d.year)
  {
    YearHasItsMonths(d.year);
    MonthsOrdered(d.year, d.month, 12);
  }

  /** Different dates have different day numbers. */
  lemma DayNumberInjective(a: Date, b: Date)
    requires ValidDate(a) && ValidDate(b) && DayNumber(a) == DayNumber(b)
    ensures a == b
  {
    WithinYear(a);
    WithinYear(b);
    if a.year < b.year {
      YearsOrdered(a.year, b.year);
    } else if b.year < a.year {
      YearsOrdered(b.year, a.year);
    } else if a.month < b.month {
      MonthsOrdered(a.year, a.month, b.month);
    } else if b.month < a.month {
      MonthsOrdered(a.year, b.month, a.month);
    }
  }

  // ----- independent rules -----

  /** A year is leap if 4 divides it, except centuries that 400 does not divide. */
  predicate GregorianLeap(y: nat) {
    y % 4 == 0 && (y % 100 != 0 || y % 400 == 0)
  }

  lemma LeapAlike(y: nat)
    ensures IsLeapYear(y) == GregorianLeap(y)
  {
    if y > 0 {
      Carry100(y);
      Carry400(y);
    }
  }

  /** February apart, months alternate between 31 and 30 days, starting again in August. */
  lemma MonthLengths(y: nat, m: nat)
    requires m < 12
    ensures DaysInMonth(y, m) ==
      if m == 1 then (if GregorianLeap(y) then 29 else 28)
      else if m < 7 then 31 - m % 2 else 30 + m % 2
  {
    hide IsLeapYear, GregorianLeap;
    LeapAlike(y);
  }

  lemma MonthStarts(y: nat, m: nat)
    requires m < 12
    ensures MonthStart(y, m) ==
      if m < 2 then 31 * m else 31 + DaysInMonth(y, 1) + (153 * (m - 2) + 2) / 5
  {
    var feb := DaysInMonth(y, 1);
    assert MonthStart(y, 1) == 31;
    assert MonthStart(y, 2) == 31 + feb;
    assert MonthStart(y, 3) == 62 + feb;
    assert MonthStart(y, 4) == 92 + feb;
    assert MonthStart(y, 5) == 123 + feb;
    assert MonthStart(y, 6) == 153 + feb;
    assert MonthStart(y, 7) == 184 + feb;
    assert MonthStart(y, 8) == 215 + feb;
    assert MonthStart(y, 9) == 245 + feb;
    assert MonthStart(y, 10) == 276 + feb;
    assert MonthStart(y, 11) == 306 + feb;
  }

  /**
   The day number in closed form, with years that begin in March, so that the leap
   day comes last: day 719468 before the first of January 1970 is the first of
   March of year 0.
   */
  lemma DayNumberClosedForm(d: Date)
    requires ValidDate(d)
    ensures var y := if d.month < 2 then d.year - 1 else d.year;
      var march := if d.month < 2 then d.month + 10 else d.month - 2;
      DayNumber(d) == 365 * y + y / 4 - y / 100 + y / 400 + (153 * march + 2) / 5 + d.day - 719468
  {
    hide YearStart, MonthStart, IsLeapYear, GregorianLeap;
    YearStartClosedForm(d.year);
    MonthStarts(d.year, d.month);
    if d.month >= 2 {
      DaysByCount(d.year);
      MonthLengths(d.year, 1);
      LeapAlike(d.year);
    }
  }

  lemma SevensDrop(a: int, k: int)
    ensures (a + 7 * k) % 7 == a % 7
  {
  }

  /**
   The weekday the text names, counted from Sunday and from the Thursday of the
   first of January 1970, is that of Zeller's congruence, for every date.
   */
  lemma WeekdayOfDate(d: Date)
    requires ValidDate(d)
    ensures var y := if d.month < 2 then d.year - 1 else d.year;
      var m := if d.month < 2 then d.month + 13 else d.month + 1;
      (DayNumber(d) + 4) % 7 == (d.day + 13 * (m + 1) / 5 + y + y / 4 - y / 100 + y / 400) % 7
  {
    hide DayNumber;
    DayNumberClosedForm(d);
    var y := if d.month < 2 then d.year - 1 else d.year;
    var m := if d.month < 2 then d.month + 13 else d.month + 1;
    assert (153 * (m - 3) + 2) / 5 == 28 * m - 94 + 13 * (m + 1) / 5;
    SevensDrop(d.day + 13 * (m + 1) / 5 + y + y / 4 - y / 100 + y / 400, 52 * y + 4 * m - 102794);
  }

  /** The loops of `unix_time_to_utc_str`: the date with a given day number. */
  method DateOfDay(days: nat) returns (date: Date)
    ensures ValidDate(date) && DayNumber(date) == days
  {
    var year, d := 1970, days;
    while true
      invariant year >= 1970 && YearStart(year) + d == days
      decreases d
    {
      var diy := if IsLeapYear(year) then 366 else 365;
      if d < diy {
        break;
      }
      d := d - diy;
      year := year + 1;
    }
    YearHasItsMonths(year);
    var month := 0;
    while month < 12
      invariant month < 12 && MonthStart(year, month) + d == days - YearStart(year) < MonthStart(year, 12)
      decreases 12 - month
    {
      var dim := MONTH_DAYS[month];
      if month == 1 && IsLeapYear(year) {
        dim := 29;
      }
      if d < dim {
        break;
      }
      d := d - dim;
      month := month + 1;
    }
    date := Date(year, month, d);
  }
}

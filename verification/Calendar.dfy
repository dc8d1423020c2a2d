/** The UTC calendar as Go's time package keeps it: instants in microseconds since the first day of year 1. */
module Calendar {
  predicate Leap(y: int) {
    y % 4 == 0 && (y % 100 != 0 || y % 400 == 0)
  }

  /** Leap days in the years 1 to y. */
  function LeapDays(y: int): int {
    y / 4 - y / 100 + y / 400
  }

  /** Days from January 1 of year 1 to January 1 of year y. */
  function DaysBeforeYear(y: int): int {
    365 * (y - 1) + LeapDays(y - 1)
  }

  /** Days in month m (0 is January) of year y. */
  function MonthDays(y: int, m: int): int
    requires 0 <= m < 12
  {
    if m == 1 then (if Leap(y) then 29 else 28)
    else if m in {3, 5, 8, 10} then 30
    else 31
  }

  function DaysBeforeMonth(y: int, m: nat): int
    requires m <= 12
  {
    if m == 0 then 0 else DaysBeforeMonth(y, m - 1) + MonthDays(y, m - 1)
  }

  /** Months are numbered: k = 12 * year + (month - 1). */
  function DaysInMonth(k: int): int {
    MonthDays(k / 12, k % 12)
  }

  /** The day month k begins on. */
  function FirstDay(k: int): int {
    DaysBeforeYear(k / 12) + DaysBeforeMonth(k / 12, k % 12)
  }

  lemma LeapYearDays(y: int)
    ensures DaysBeforeYear(y + 1) == DaysBeforeYear(y) + if Leap(y) then 366 else 365
  {
    FewerQuotients(y);
    Divisors(y);
    assert LeapDays(y) == LeapDays(y - 1) + if Leap(y) then 1 else 0;
  }

  lemma FewerQuotients(y: int)
    ensures y / 4 == (y - 1) / 4 + if y % 4 == 0 then 1 else 0
    ensures y / 100 == (y - 1) / 100 + if y % 100 == 0 then 1 else 0
    ensures y / 400 == (y - 1) / 400 + if y % 400 == 0 then 1 else 0
  {
  }

  lemma Divisors(y: int)
    ensures y % 400 == 0 ==> y % 100 == 0
    ensures y % 100 == 0 ==> y % 4 == 0
  {
  }

  lemma MonthsFillTheYear(y: int)
    ensures DaysBeforeMonth(y, 12) == if Leap(y) then 366 else 365
  {
    var february := MonthDays(y, 1);
    assert DaysBeforeMonth(y, 1) == 31;
    assert DaysBeforeMonth(y, 2) == 31 + february;
    assert DaysBeforeMonth(y, 3) == 62 + february;
    assert DaysBeforeMonth(y, 4) == 92 + february;
    assert DaysBeforeMonth(y, 6) == 153 + february;
    assert DaysBeforeMonth(y, 8) == 215 + february;
    assert DaysBeforeMonth(y, 10) == 276 + february;
  }

  /** Consecutive months are as far apart as the calendar says, across year ends and in leap years. */
  lemma MonthLength(k: int)
    ensures FirstDay(k + 1) == FirstDay(k) + DaysInMonth(k)
    ensures 28 <= DaysInMonth(k) <= 31
  {
    var y, m := k / 12, k % 12;
    if m == 11 {
      LeapYearDays(y);
      MonthsFillTheYear(y);
      assert (k + 1) / 12 == y + 1 && (k + 1) % 12 == 0;
    } else {
      assert (k + 1) / 12 == y && (k + 1) % 12 == m + 1;
    }
  }

  lemma {:induction false} FirstDayGrows(j: int, k: int)
    requires j < k
    ensures FirstDay(j) < FirstDay(k)
    decreases k - j
  {
    MonthLength(k - 1);
    if j < k - 1 {
      FirstDayGrows(j, k - 1);
    }
  }

  lemma FirstDayOrder(j: int, k: int)
    ensures FirstDay(j) < FirstDay(k) <==> j < k
  {
    if j < k {
      FirstDayGrows(j, k);
    } else if k < j {
      FirstDayGrows(k, j);
    }
  }

  /** The first instant of month k. */
  function Start(k: int): int {
    FirstDay(k) * 86_400_000_000
  }

  lemma StartOrder(j: int, k: int)
    ensures Start(j) < Start(k) <==> j < k
  {
    FirstDayOrder(j, k);
  }

  /** Slots begin at f(k), one after another. */
  ghost predicate Increasing(f: int -> int) {
    forall j, k {:trigger Before(j, k)} :: Before(j, k) ==> f(j) < f(k)
  }

  predicate Before(j: int, k: int) {
    j < k
  }

  lemma InOrder(f: int -> int, j: int, k: int)
    requires Increasing(f)
    ensures f(j) < f(k) <==> j < k
  {
    assert Before(j, k) || j == k || Before(k, j);
  }

  function SlotUp(f: int -> int, t: int, k: int): (r: int)
    requires Increasing(f) && f(k) <= t
    ensures f(r) <= t < f(r + 1)
    decreases t - f(k)
  {
    InOrder(f, k, k + 1);
    if t < f(k + 1) then k else SlotUp(f, t, k + 1)
  }

  function SlotDown(f: int -> int, t: int, k: int): (r: int)
    requires Increasing(f) && t < f(k)
    ensures f(r) <= t < f(r + 1)
    decreases f(k) - t
  {
    InOrder(f, k - 1, k);
    if f(k - 1) <= t then k - 1 else SlotDown(f, t, k - 1)
  }

  function Slot(f: int -> int, t: int): (r: int)
    requires Increasing(f)
    ensures f(r) <= t < f(r + 1)
  {
    if f(0) <= t then SlotUp(f, t, 0) else SlotDown(f, t, 0)
  }

  lemma SlotExactly(f: int -> int, t: int, k: int)
    requires Increasing(f)
    ensures Slot(f, t) == k <==> f(k) <= t < f(k + 1)
  {
    var r := Slot(f, t);
    InOrder(f, k, r + 1);
    InOrder(f, r, k + 1);
  }

  lemma StartIncreases()
    ensures Increasing(Start)
  {
    forall j, k | Before(j, k) ensures Start(j) < Start(k) {
      StartOrder(j, k);
    }
  }

  /** monthFloor, for months that begin at f: midnight on the first of the month. */
  function Floor(f: int -> int, t: int): int
    requires Increasing(f)
  {
    f(Slot(f, t))
  }

  /** AddDate(0, n, 0): n months on, the day of the month counted from there, so that a day too many flows over. */
  function AddMonths(f: int -> int, t: int, n: int): int
    requires Increasing(f)
  {
    f(Slot(f, t) + n) + (t - Floor(f, t))
  }

  /** From a floored instant months are added exactly. */
  lemma AddMonthsToFloor(f: int -> int, k: int, n: int)
    requires Increasing(f)
    ensures Slot(f, f(k)) == k && AddMonths(f, f(k), n) == f(k + n)
  {
    InOrder(f, k, k + 1);
    SlotExactly(f, f(k), k);
  }
}

/**
 * The eligibility engine: the working-day denominator, the attendance
 * percentage and the 65% verdict, plus the ordinal-suffix helper used when
 * dates are formatted.
 *
 * The service computes `Math.min(100, (n / d) * 100)` in floating point and
 * reports `Math.round` of it. Here the unrounded figure is an exact `real`
 * (the reference), and the figures the service reports are computed with
 * integers and proved equal to the reference.
 */
module Eligibility {

  /** Fixed denominator of the accelerated (demo) policy. */
  const DemoPossibleDays: nat := 10
  /** Length of the trailing calendar window of the calendar-day policy. */
  const AttendancePeriod: nat := 30
  /** Minimum percentage for a positive verdict. */
  const Threshold: nat := 65

  /** A day of the week numbered as JavaScript's `getDay`: 0 is Sunday, 6 Saturday. */
  type Weekday = d: int | 0 <= d < 7

  /** Monday to Friday. */
  predicate IsWorkingDay(d: int) {
    1 <= d <= 5
  }

  /**
   * The weekday of the date `i` days before a day whose weekday is `today`
   * (`setDate(getDate() - i)` then `getDay()`).
   */
  function WeekdayBefore(today: Weekday, i: nat): Weekday {
    (today - i) % 7
  }

  /** Number of offsets 0 .. days-1 before today that fall on a working day. */
  function WorkingDaysIn(today: Weekday, days: nat): (r: nat)
    ensures r <= days
  {
    if days == 0 then 0
    else WorkingDaysIn(today, days - 1) + WorkingDayCount(WeekdayBefore(today, days - 1))
  }

  /**
   * The service's `calculateWorkingDays`: walks back `days` calendar days from
   * today (today included) and counts those that fall on Monday to Friday.
   */
  method CalculateWorkingDays(days: nat, today: Weekday) returns (workingDays: nat)
    ensures workingDays == WorkingDaysIn(today, days)
    ensures workingDays <= days
  {
    workingDays := 0;
    for i := 0 to days
      invariant workingDays == WorkingDaysIn(today, i)
    {
      var dayOfWeek := WeekdayBefore(today, i);
      if 1 <= dayOfWeek <= 5 {
        workingDays := workingDays + 1;
      }
    }
  }

  /** Zero days back is today itself. */
  lemma NoStepBack(today: Weekday)
    ensures WeekdayBefore(today, 0) == today
  {
  }

  /** One more day back moves the weekday one step back, Sunday wrapping to Saturday. */
  lemma StepBack(today: Weekday, i: nat)
    ensures WeekdayBefore(today, i + 1) == PreviousWeekday(WeekdayBefore(today, i))
  {
  }

  function PreviousWeekday(d: Weekday): Weekday {
    if d == 0 then 6 else d - 1
  }

  function WorkingDayCount(d: int): nat {
    if IsWorkingDay(d) then 1 else 0
  }

  /** Seven successive weekdays, starting anywhere, hold five working days. */
  function WeekFrom(d: Weekday): seq<Weekday> {
    var d1 := PreviousWeekday(d);
    var d2 := PreviousWeekday(d1);
    var d3 := PreviousWeekday(d2);
    var d4 := PreviousWeekday(d3);
    var d5 := PreviousWeekday(d4);
    var d6 := PreviousWeekday(d5);
    [d, d1, d2, d3, d4, d5, d6]
  }

  lemma WeekFromHasFiveWorkingDays(d: Weekday)
    ensures var w := WeekFrom(d);
      WorkingDayCount(w[0]) + WorkingDayCount(w[1]) + WorkingDayCount(w[2]) + WorkingDayCount(w[3])
      + WorkingDayCount(w[4]) + WorkingDayCount(w[5]) + WorkingDayCount(w[6]) == 5
  {
  }

  lemma WeekFromFollowsCalendar(today: Weekday, k: nat)
    ensures forall i :: 0 <= i < 7 ==> WeekdayBefore(today, k + i) == WeekFrom(WeekdayBefore(today, k))[i]
  {
    var w := WeekFrom(WeekdayBefore(today, k));
    StepBack(today, k);
    StepBack(today, k + 1);
    StepBack(today, k + 2);
    StepBack(today, k + 3);
    StepBack(today, k + 4);
    StepBack(today, k + 5);
    forall i | 0 <= i < 7
      ensures WeekdayBefore(today, k + i) == w[i]
    {
      if i == 0 {
        assert k + i == k;
      }
    }
  }

  /** Any seven consecutive offsets contain exactly five working days. */
  lemma {:induction false} WeekHasFiveWorkingDays(today: Weekday, k: nat)
    ensures WorkingDaysIn(today, k + 7) == WorkingDaysIn(today, k) + 5
  {
    var w := WeekFrom(WeekdayBefore(today, k));
    WeekFromFollowsCalendar(today, k);
    WeekFromHasFiveWorkingDays(WeekdayBefore(today, k));
    calc {
      WorkingDaysIn(today, k + 7);
      WorkingDaysIn(today, k + 6) + WorkingDayCount(w[6]);
      WorkingDaysIn(today, k + 5) + WorkingDayCount(w[5]) + WorkingDayCount(w[6]);
      WorkingDaysIn(today, k + 4) + WorkingDayCount(w[4]) + WorkingDayCount(w[5]) + WorkingDayCount(w[6]);
      WorkingDaysIn(today, k + 3) + WorkingDayCount(w[3]) + WorkingDayCount(w[4]) + WorkingDayCount(w[5])
        + WorkingDayCount(w[6]);
      WorkingDaysIn(today, k + 2) + WorkingDayCount(w[2]) + WorkingDayCount(w[3]) + WorkingDayCount(w[4])
        + WorkingDayCount(w[5]) + WorkingDayCount(w[6]);
      WorkingDaysIn(today, k + 1) + WorkingDayCount(w[1]) + WorkingDayCount(w[2]) + WorkingDayCount(w[3])
        + WorkingDayCount(w[4]) + WorkingDayCount(w[5]) + WorkingDayCount(w[6]);
      WorkingDaysIn(today, k) + WorkingDayCount(w[0]) + WorkingDayCount(w[1]) + WorkingDayCount(w[2])
        + WorkingDayCount(w[3]) + WorkingDayCount(w[4]) + WorkingDayCount(w[5]) + WorkingDayCount(w[6]);
      WorkingDaysIn(today, k) + 5;
    }
  }

  /** `q` whole weeks add exactly `5 q` working days. */
  lemma {:induction false} WeeksHaveFiveWorkingDaysEach(today: Weekday, k: nat, q: nat)
    ensures WorkingDaysIn(today, k + 7 * q) == WorkingDaysIn(today, k) + 5 * q
  {
    if q > 0 {
      WeeksHaveFiveWorkingDaysEach(today, k, q - 1);
      WeekHasFiveWorkingDays(today, k + 7 * (q - 1));
    }
  }

  /**
   * The calendar-day denominator (working days in the trailing 30 days) is
   * between 20 and 22 whatever today's weekday is; in particular it is never
   * zero, so the service's `totalPossibleDays > 0` guard never fails.
   */
  lemma PeriodHasTwentyToTwentyTwoWorkingDays(today: Weekday)
    ensures 20 <= WorkingDaysIn(today, AttendancePeriod) <= 22
  {
    WeeksHaveFiveWorkingDaysEach(today, 2, 4);
  }

  /**
   * The denominator the service uses under each policy: 10 under the demo
   * policy, 20 to 22 otherwise, so never zero.
   */
  function PossibleDays(demo: bool, today: Weekday): (d: nat)
    ensures demo ==> d == DemoPossibleDays
    ensures !demo ==> 20 <= d <= 22
  {
    if demo then DemoPossibleDays
    else
      PeriodHasTwentyToTwentyTwoWorkingDays(today);
      WorkingDaysIn(today, AttendancePeriod)
  }

  function Min(a: real, b: real): real {
    if a <= b then a else b
  }

  /** `(n / d) * 100` as the source writes it, exactly; 0 when `d` is 0. */
  function UncappedPercentage(n: nat, d: nat): real {
    if d > 0 then (n as real / d as real) * 100.0 else 0.0
  }

  /** `Math.min(100, (n / d) * 100)`, exactly; 0 when `d` is 0. */
  function CappedPercentage(n: nat, d: nat): real {
    if d > 0 then Min(100.0, UncappedPercentage(n, d)) else 0.0
  }

  /** JavaScript's `Math.round`: the nearest integer, halves rounded up. */
  function Round(x: real): int {
    (x + 0.5).Floor
  }

  lemma QuotientUnique(a: real, b: real, y: real)
    requires b != 0.0 && y * b == a
    ensures y == a / b
  {
  }

  lemma FloorOfQuotient(a: nat, b: nat)
    requires b > 0
    ensures (a as real / b as real).Floor == a / b
  {
    var q, r := a / b, a % b;
    assert a == b * q + r;
    assert (a as real) / (b as real) == q as real + (r as real) / (b as real);
    assert 0.0 <= (r as real) / (b as real) < 1.0;
  }

  /**
   * The reported percentage, computed in integers: 0 with no possible days,
   * 100 once the count reaches the denominator, otherwise `(200 n + d) div 2d`.
   * It lies in 0..100 and equals `Math.round(Math.min(100, (n / d) * 100))`.
   */
  function RoundedPercentage(n: nat, d: nat): (p: nat)
    ensures p <= 100
    ensures p == Round(CappedPercentage(n, d))
  {
    if d == 0 then 0
    else if n >= d then
      RoundAtCap(n, d);
      100
    else
      RoundBelowCap(n, d);
      (200 * n + d) / (2 * d)
  }

  lemma RoundAtCap(n: nat, d: nat)
    requires 0 < d <= n
    ensures CappedPercentage(n, d) == 100.0
  {
    var x := n as real / d as real;
    assert x * (d as real) == n as real;
    ScalePreservesOrder(x, 1.0, d as real);
    assert x >= 1.0;
    assert UncappedPercentage(n, d) == x * 100.0 >= 100.0;
  }

  lemma RoundBelowCap(n: nat, d: nat)
    requires 0 < d && n < d
    ensures Round(CappedPercentage(n, d)) == (200 * n + d) / (2 * d)
  {
    var x := n as real / d as real;
    assert x * (d as real) == n as real;
    ScalePreservesOrder(x, 1.0, d as real);
    assert CappedPercentage(n, d) == x * 100.0;
    assert (x * 100.0 + 0.5) * ((2 * d) as real) == (200 * n + d) as real;
    QuotientUnique((200 * n + d) as real, (2 * d) as real, x * 100.0 + 0.5);
    FloorOfQuotient(200 * n + d, 2 * d);
  }

  /**
   * The eligibility verdict in integers. It holds exactly when the capped
   * percentage reaches 65 (`getStudentByFingerprintId`) and exactly when the
   * uncapped one does (`getEligibleStudentsCount`): the two agree.
   */
  predicate IsEligible(n: nat, d: nat): (b: bool)
    ensures b <==> CappedPercentage(n, d) >= Threshold as real
    ensures b <==> UncappedPercentage(n, d) >= Threshold as real
  {
    if d > 0 then
      PercentageComparedToThreshold(n, d);
      100 * n >= Threshold * d
    else
      false
  }

  /** With `d > 0`, `(n / d) * 100 >= 65` and `100 n >= 65 d` say the same. */
  lemma PercentageComparedToThreshold(n: nat, d: nat)
    requires d > 0
    ensures UncappedPercentage(n, d) >= Threshold as real <==> 100 * n >= Threshold * d
    ensures CappedPercentage(n, d) >= Threshold as real <==> 100 * n >= Threshold * d
  {
    var x := n as real / d as real;
    var p := x * 100.0;
    assert x * (d as real) == n as real;
    assert p * (d as real) == (100 * n) as real;
    ScalePreservesOrder(p, Threshold as real, d as real);
  }

  lemma ScalePreservesOrder(a: real, b: real, c: real)
    requires c > 0.0
    ensures a >= b <==> a * c >= b * c
  {
    assert a * c - b * c == (a - b) * c;
  }

  /**
   * For every denominator the service can produce (10, 20, 21, 22) the rounded
   * figure shown to users is at least 65 exactly when the verdict is positive.
   */
  lemma RoundedAgreesWithVerdict(n: nat, d: nat)
    requires d == DemoPossibleDays || 20 <= d <= 22
    ensures RoundedPercentage(n, d) >= Threshold <==> IsEligible(n, d)
  {
    if n < d {
      if d == 10 {
        assert RoundedPercentage(n, d) == (200 * n + 10) / 20;
      } else if d == 20 {
        assert RoundedPercentage(n, d) == (200 * n + 20) / 40;
      } else if d == 21 {
        assert RoundedPercentage(n, d) == (200 * n + 21) / 42;
      } else {
        assert RoundedPercentage(n, d) == (200 * n + 22) / 44;
      }
    }
  }

  /** For other denominators the two can differ: 129 of 200 shows 65% yet is not eligible. */
  lemma RoundedCanDisagreeElsewhere()
    ensures RoundedPercentage(129, 200) == 65 && !IsEligible(129, 200)
  {
  }

  /**
   * JavaScript's `%` on integers: `a` minus a multiple of `b`, with the sign of
   * the dividend and a magnitude below the divisor.
   */
  function JsRemainder(a: int, b: nat): (r: int)
    requires b > 0
    ensures -(b as int) < r < b
    ensures a >= 0 ==> 0 <= r
    ensures a < 0 ==> r <= 0
    ensures exists q: int :: a == b * q + r
  {
    if a >= 0 then
      assert a == b * (a / b) + a % b;
      a % b
    else
      assert a == b * -((-a) / b) + -((-a) % b);
      -((-a) % b)
  }

  /** The service's `getOrdinalSuffix`: "th" for 11 to 13, otherwise by the last digit. */
  function OrdinalSuffix(day: int): (s: string)
    ensures s == "st" || s == "nd" || s == "rd" || s == "th"
    ensures 11 <= day <= 13 ==> s == "th"
  {
    if 11 <= day <= 13 then "th"
    else
      match JsRemainder(day, 10)
      case 1 => "st"
      case 2 => "nd"
      case 3 => "rd"
      case _ => "th"
  }

  /** For a day of the month the suffix is the English ordinal one. */
  lemma OrdinalSuffixOfDayOfMonth(day: int)
    requires 1 <= day <= 31
    ensures OrdinalSuffix(day) ==
      if day == 1 || day == 21 || day == 31 then "st"
      else if day == 2 || day == 22 then "nd"
      else if day == 3 || day == 23 then "rd"
      else "th"
  {
  }

  /** A negative day (never produced by a date) always gets "th": the remainder is never positive. */
  lemma OrdinalSuffixOfNegative(day: int)
    requires day < 0
    ensures OrdinalSuffix(day) == "th"
  {
  }
}

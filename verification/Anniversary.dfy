/** Anniversaries of a hire date, or of a date of birth, on the civil calendar. */
module Anniversary {

  datatype Date = Date(year: nat, month: nat, day: nat)

  predicate Leap(year: int) {
    year % 4 == 0 && (year % 100 != 0 || year % 400 == 0)
  }

  function MonthLength(year: nat, month: nat): nat {
    if month == 2 then (if Leap(year) then 29 else 28)
    else if month in {4, 6, 9, 11} then 30
    else 31
  }

  predicate Valid(d: Date) {
    1 <= d.year && 1 <= d.month <= 12 && 1 <= d.day <= MonthLength(d.year, d.month)
  }

  // ----- Counting days ----------------------------------------------------------------------------------

  function YearStart(year: nat): nat {
    if year == 0 then 0 else YearStart(year - 1) + if Leap(year - 1) then 366 else 365
  }

  function MonthStart(year: nat, month: nat): nat {
    if month <= 1 then 0 else MonthStart(year, month - 1) + MonthLength(year, month - 1)
  }

  /** The number of days since the first day of year 0. */
  function DayNumber(d: Date): int {
    YearStart(d.year) + MonthStart(d.year, d.month) + d.day - 1
  }

  function YearLength(year: nat): nat {
    if Leap(year) then 366 else 365
  }

  /** The years in closed form: every fourth year is a leap year, but of the hundredth ones only every fourth. */
  lemma {:induction false} YearStartIs(year: nat)
    ensures YearStart(year) == 365 * year + (year + 3) / 4 - (year + 99) / 100 + (year + 399) / 400
  {
    if year > 0 {
      YearStartIs(year - 1);
      LeapStep(year - 1);
    }
  }

  lemma LeapStep(y: nat)
    ensures (y + 4) / 4 - (y + 3) / 4 == if y % 4 == 0 then 1 else 0
    ensures (y + 100) / 100 - (y + 99) / 100 == if y % 100 == 0 then 1 else 0
    ensures (y + 400) / 400 - (y + 399) / 400 == if y % 400 == 0 then 1 else 0
    ensures y % 100 == 0 ==> y % 4 == 0
    ensures y % 400 == 0 ==> y % 100 == 0
  {
    assert y == 100 * (y / 100) + y % 100;
    assert y == 400 * (y / 400) + y % 400;
  }

  /** The months in closed form: from March on they start 31, 61, 92, ... days into a pattern of five. */
  lemma MonthStartIs(year: nat, month: nat)
    requires 1 <= month <= 12
    ensures MonthStart(year, month) ==
            if month <= 2 then 31 * (month - 1)
            else (153 * (month - 3) + 2) / 5 + 59 + if Leap(year) then 1 else 0
  {
    assert MonthStart(year, 2) == 31;
    assert MonthStart(year, 3) == 31 + MonthLength(year, 2);
    assert MonthStart(year, 4) == MonthStart(year, 3) + 31;
    assert MonthStart(year, 5) == MonthStart(year, 3) + 61;
    assert MonthStart(year, 6) == MonthStart(year, 5) + 31;
    assert MonthStart(year, 7) == MonthStart(year, 5) + 61;
    assert MonthStart(year, 8) == MonthStart(year, 7) + 31;
    assert MonthStart(year, 9) == MonthStart(year, 7) + 62;
    assert MonthStart(year, 10) == MonthStart(year, 9) + 30;
    assert MonthStart(year, 11) == MonthStart(year, 9) + 61;
    assert MonthStart(year, 12) == MonthStart(year, 11) + 30;
  }

  lemma TwelveMonths(year: nat)
    ensures MonthStart(year, 13) == YearLength(year)
  {
    assert MonthStart(year, 2) == 31;
    assert MonthStart(year, 3) == 31 + MonthLength(year, 2);
    assert MonthStart(year, 5) == MonthStart(year, 3) + 61;
    assert MonthStart(year, 7) == MonthStart(year, 5) + 61;
    assert MonthStart(year, 9) == MonthStart(year, 7) + 62;
    assert MonthStart(year, 11) == MonthStart(year, 9) + 61;
  }

  lemma {:induction false} LaterMonth(year: nat, month: nat, later: nat)
    requires 1 <= month < later
    ensures MonthStart(year, month) + MonthLength(year, month) <= MonthStart(year, later)
  {
    if later > month + 1 {
      LaterMonth(year, month, later - 1);
    }
  }

  /** A leap day moves every later month by one day and no earlier one. */
  lemma {:induction false} LeapShift(year: nat, other: nat, month: nat)
    requires 1 <= month
    ensures MonthStart(year, month) - MonthStart(other, month) ==
            if month <= 2 then 0 else YearLength(year) - YearLength(other)
  {
    if month > 1 {
      LeapShift(year, other, month - 1);
    }
  }

  lemma {:induction false} LaterYear(year: nat, later: nat)
    requires year < later
    ensures YearStart(year) + YearLength(year) <= YearStart(later)
  {
    if later > year + 1 {
      LaterYear(year, later - 1);
    }
  }

  lemma WithinYear(d: Date)
    requires Valid(d)
    ensures YearStart(d.year) <= DayNumber(d) < YearStart(d.year) + YearLength(d.year)
  {
    LaterMonth(d.year, d.month, 13);
    TwelveMonths(d.year);
  }

  /** The comparison of month and day the source writes out. */
  predicate EarlierInYear(a: Date, b: Date) {
    a.month < b.month || (a.month == b.month && a.day < b.day)
  }

  predicate Earlier(a: Date, b: Date) {
    a.year < b.year || (a.year == b.year && EarlierInYear(a, b))
  }

  /** Comparing fields orders dates as their day numbers do, so a date and its day number are one-to-one. */
  lemma OrderIsDayOrder(a: Date, b: Date)
    requires Valid(a) && Valid(b)
    ensures Earlier(a, b) <==> DayNumber(a) < DayNumber(b)
    ensures a == b <==> DayNumber(a) == DayNumber(b)
  {
    if Earlier(a, b) {
      EarlierDay(a, b);
    } else if Earlier(b, a) {
      EarlierDay(b, a);
    }
  }

  lemma EarlierDay(a: Date, b: Date)
    requires Valid(a) && Valid(b) && Earlier(a, b)
    ensures DayNumber(a) < DayNumber(b)
  {
    if a.year < b.year {
      WithinYear(a);
      WithinYear(b);
      LaterYear(a.year, b.year);
    } else if a.month < b.month {
      LaterMonth(a.year, a.month, b.month);
    }
  }

  // ----- Dates that overflow ----------------------------------------------------------------------------

  /** The date of the given fields, a day past the end of its month counting on into the next one. */
  function Normalised(year: nat, month: nat, day: nat): Date
    requires 1 <= month <= 12
  {
    if day <= MonthLength(year, month) then Date(year, month, day)
    else if month < 12 then Date(year, month + 1, day - MonthLength(year, month))
    else Date(year + 1, 1, day - MonthLength(year, month))
  }

  /** Normalising keeps the day meant: the given number of days into the given month. */
  lemma NormalisedIsSameDay(year: nat, month: nat, day: nat)
    requires 1 <= year && 1 <= month <= 12 && 1 <= day <= 31
    ensures Valid(Normalised(year, month, day))
    ensures DayNumber(Normalised(year, month, day)) == YearStart(year) + MonthStart(year, month) + day - 1
  {
    TwelveMonths(year);
  }

  function WithYear(d: Date, year: nat): Date
    requires Valid(d)
  {
    Normalised(year, d.month, d.day)
  }

  // ----- The two anniversaries ---------------------------------------------------------------------------

  function ThisYears(hired: Date, today: Date): Date
    requires Valid(hired) && Valid(today)
  {
    Normalised(today.year, hired.month, hired.day)
  }

  /** This year's anniversary always falls in this year; only 29 February ever overflows. */
  lemma AnniversaryFields(hired: Date, year: nat)
    requires Valid(hired) && 1 <= year
    ensures var a := Normalised(year, hired.month, hired.day);
            && Valid(a) && a.year == year
            && a == if hired.month == 2 && hired.day == 29 && !Leap(year) then Date(year, 3, 1)
                    else Date(year, hired.month, hired.day)
  {
  }

  method NextAnniversary(hired: Date, today: Date) returns (next: Date)
    requires Valid(hired) && Valid(today)
    ensures next == Next(hired, today)
  {
    AnniversaryFields(hired, today.year);
    next := Normalised(today.year, hired.month, hired.day);
    if next.month < today.month || (next.month == today.month && next.day < today.day) {
      next := WithYear(next, today.year + 1);
    }
  }

  method LastAnniversary(hired: Date, today: Date) returns (last: Date, yearsCompleted: int)
    requires Valid(hired) && Valid(today)
    ensures last == Last(hired, today) && yearsCompleted == last.year - hired.year
  {
    AnniversaryFields(hired, today.year);
    last := Normalised(today.year, hired.month, hired.day);
    if last.month > today.month || (last.month == today.month && last.day > today.day) {
      last := WithYear(last, today.year - 1);
    }
    yearsCompleted := last.year - hired.year;
  }

  function Next(hired: Date, today: Date): Date
    requires Valid(hired) && Valid(today)
  {
    AnniversaryFields(hired, today.year);
    var a := ThisYears(hired, today);
    if EarlierInYear(a, today) then WithYear(a, today.year + 1) else a
  }

  function Last(hired: Date, today: Date): Date
    requires Valid(hired) && Valid(today)
  {
    AnniversaryFields(hired, today.year);
    var a := ThisYears(hired, today);
    if EarlierInYear(today, a) then WithYear(a, today.year - 1) else a
  }

  lemma SameMonthNextYear(year: nat, month: nat)
    requires 1 <= month
    ensures YearStart(year + 1) + MonthStart(year + 1, month) - YearStart(year) - MonthStart(year, month) ==
            if month <= 2 then YearLength(year) else YearLength(year + 1)
  {
    LeapShift(year, year + 1, month);
  }

  /** The same month and day one year on are 365 or 366 days later. */
  lemma OneYearOn(year: nat, month: nat, day: nat)
    requires 1 <= year && 1 <= month <= 12 && 1 <= day <= 31
    ensures DayNumber(Normalised(year + 1, month, day)) - DayNumber(Normalised(year, month, day)) ==
            if month <= 2 then YearLength(year) else YearLength(year + 1)
  {
    NormalisedIsSameDay(year, month, day);
    NormalisedIsSameDay(year + 1, month, day);
    SameMonthNextYear(year, month);
  }

  /**
   The last and the next anniversary bracket today, each within 365 days of it; they are the same day exactly
   when this year's anniversary is today, and otherwise 365 or 366 days apart.
   */
  lemma AnniversariesBracketToday(hired: Date, today: Date)
    requires Valid(hired) && Valid(today) && 2 <= today.year
    ensures var last, next, now := DayNumber(Last(hired, today)), DayNumber(Next(hired, today)), DayNumber(today);
            && now - 365 <= last <= now <= next <= now + 365
            && (last == next <==> ThisYears(hired, today) == today)
            && (last != next ==> next - last in {365, 366})
  {
    AnniversaryFields(hired, today.year);
    if EarlierInYear(ThisYears(hired, today), today) {
      PassedThisYear(hired, today);
    } else if EarlierInYear(today, ThisYears(hired, today)) {
      AheadThisYear(hired, today);
    }
  }

  lemma PassedThisYear(hired: Date, today: Date)
    requires Valid(hired) && Valid(today) && EarlierInYear(ThisYears(hired, today), today)
    ensures var last, next, now := DayNumber(Last(hired, today)), DayNumber(Next(hired, today)), DayNumber(today);
            last < now < next && next - last in {365, 366}
  {
    var a := ThisYears(hired, today);
    AnniversaryFields(hired, today.year);
    EarlierDay(a, today);
    OneYearOn(today.year, a.month, a.day);
    EarlierDay(today, Next(hired, today));
  }

  lemma AheadThisYear(hired: Date, today: Date)
    requires Valid(hired) && Valid(today) && 2 <= today.year && EarlierInYear(today, ThisYears(hired, today))
    ensures var last, next, now := DayNumber(Last(hired, today)), DayNumber(Next(hired, today)), DayNumber(today);
            last < now < next && next - last in {365, 366}
  {
    var a := ThisYears(hired, today);
    AnniversaryFields(hired, today.year);
    EarlierDay(today, a);
    OneYearOn(today.year - 1, a.month, a.day);
    EarlierDay(Last(hired, today), today);
  }

  // ----- Against every anniversary there is ---------------------------------------------------------------

  /** The day of the anniversary in a given year. */
  function AnniversaryDay(hired: Date, year: nat): int
    requires Valid(hired)
  {
    DayNumber(Normalised(year, hired.month, hired.day))
  }

  lemma AnniversariesInOrder(hired: Date, year: nat, later: nat)
    requires Valid(hired) && 1 <= year < later
    ensures AnniversaryDay(hired, year) < AnniversaryDay(hired, later)
  {
    AnniversaryFields(hired, year);
    AnniversaryFields(hired, later);
    EarlierDay(Normalised(year, hired.month, hired.day), Normalised(later, hired.month, hired.day));
  }

  ghost predicate IsFirstFrom(hired: Date, day: int, d: int)
    requires Valid(hired)
  {
    && d >= day
    && (exists y: nat | 1 <= y :: AnniversaryDay(hired, y) == d)
    && forall y: nat | 1 <= y && AnniversaryDay(hired, y) >= day :: d <= AnniversaryDay(hired, y)
  }

  ghost predicate IsLatestUpTo(hired: Date, day: int, d: int)
    requires Valid(hired)
  {
    && d <= day
    && (exists y: nat | 1 <= y :: AnniversaryDay(hired, y) == d)
    && forall y: nat | 1 <= y && AnniversaryDay(hired, y) <= day :: d >= AnniversaryDay(hired, y)
  }

  predicate LeapDay(d: Date) {
    d.month == 2 && d.day == 29
  }

  /** A year's anniversary is the first from a day on when the year before's has passed. */
  lemma FirstFrom(hired: Date, day: int, year: nat)
    requires Valid(hired) && 2 <= year && AnniversaryDay(hired, year - 1) < day <= AnniversaryDay(hired, year)
    ensures forall d :: IsFirstFrom(hired, day, d) <==> d == AnniversaryDay(hired, year)
  {
    forall y: nat | 1 <= y && AnniversaryDay(hired, y) >= day
      ensures AnniversaryDay(hired, year) <= AnniversaryDay(hired, y)
    {
      if y < year - 1 {
        AnniversariesInOrder(hired, y, year - 1);
      } else if y > year {
        AnniversariesInOrder(hired, year, y);
      }
    }
  }

  lemma LatestUpTo(hired: Date, day: int, year: nat)
    requires Valid(hired) && 1 <= year && AnniversaryDay(hired, year) <= day < AnniversaryDay(hired, year + 1)
    ensures forall d :: IsLatestUpTo(hired, day, d) <==> d == AnniversaryDay(hired, year)
  {
    forall y: nat | 1 <= y && AnniversaryDay(hired, y) <= day
      ensures AnniversaryDay(hired, y) <= AnniversaryDay(hired, year)
    {
      if y > year + 1 {
        AnniversariesInOrder(hired, year + 1, y);
      } else if y < year {
        AnniversariesInOrder(hired, y, year);
      }
    }
  }

  lemma YearsAround(hired: Date, today: Date)
    requires Valid(hired) && Valid(today) && 2 <= today.year
    ensures AnniversaryDay(hired, today.year - 1) < DayNumber(today) < AnniversaryDay(hired, today.year + 1)
  {
    AnniversaryFields(hired, today.year - 1);
    AnniversaryFields(hired, today.year + 1);
    EarlierDay(Normalised(today.year - 1, hired.month, hired.day), today);
    EarlierDay(today, Normalised(today.year + 1, hired.month, hired.day));
  }

  /** Moving a year's anniversary to an adjacent year gives that year's, unless 29 February was lost on the way. */
  lemma Carried(hired: Date, year: nat, other: nat)
    requires Valid(hired) && 1 <= year && 1 <= other && (other == year + 1 || year == other + 1)
    ensures Valid(Normalised(year, hired.month, hired.day))
    ensures DayNumber(WithYear(Normalised(year, hired.month, hired.day), other)) == AnniversaryDay(hired, other) <==>
            !(LeapDay(hired) && Leap(other))
  {
    AnniversaryFields(hired, year);
    AnniversaryFields(hired, other);
    var moved := WithYear(Normalised(year, hired.month, hired.day), other);
    assert Leap(other) ==> !Leap(year);
    if LeapDay(hired) && Leap(other) {
      assert moved == Date(other, 3, 1);
      EarlierDay(Date(other, 2, 29), moved);
    }
  }

  lemma NextOncePassed(hired: Date, today: Date)
    requires Valid(hired) && Valid(today) && 2 <= today.year && EarlierInYear(ThisYears(hired, today), today)
    ensures IsFirstFrom(hired, DayNumber(today), DayNumber(Next(hired, today))) <==>
              !(LeapDay(hired) && Leap(today.year + 1))
  {
    assert AnniversaryDay(hired, today.year) < DayNumber(today) by {
      AnniversaryFields(hired, today.year);
      EarlierDay(ThisYears(hired, today), today);
    }
    YearsAround(hired, today);
    FirstFrom(hired, DayNumber(today), today.year + 1);
    Carried(hired, today.year, today.year + 1);
  }

  lemma NextUntilPassed(hired: Date, today: Date)
    requires Valid(hired) && Valid(today) && 2 <= today.year && !EarlierInYear(ThisYears(hired, today), today)
    ensures IsFirstFrom(hired, DayNumber(today), DayNumber(Next(hired, today)))
  {
    assert DayNumber(today) <= AnniversaryDay(hired, today.year) by {
      AnniversaryFields(hired, today.year);
      OrderIsDayOrder(ThisYears(hired, today), today);
    }
    YearsAround(hired, today);
    FirstFrom(hired, DayNumber(today), today.year);
  }

  lemma LastWhileAhead(hired: Date, today: Date)
    requires Valid(hired) && Valid(today) && 2 <= today.year && EarlierInYear(today, ThisYears(hired, today))
    ensures IsLatestUpTo(hired, DayNumber(today), DayNumber(Last(hired, today))) <==>
              !(LeapDay(hired) && Leap(today.year - 1))
  {
    assert DayNumber(today) < AnniversaryDay(hired, today.year) by {
      AnniversaryFields(hired, today.year);
      EarlierDay(today, ThisYears(hired, today));
    }
    YearsAround(hired, today);
    LatestUpTo(hired, DayNumber(today), today.year - 1);
    Carried(hired, today.year, today.year - 1);
  }

  lemma LastOnceReached(hired: Date, today: Date)
    requires Valid(hired) && Valid(today) && 2 <= today.year && !EarlierInYear(today, ThisYears(hired, today))
    ensures IsLatestUpTo(hired, DayNumber(today), DayNumber(Last(hired, today)))
  {
    assert AnniversaryDay(hired, today.year) <= DayNumber(today) by {
      AnniversaryFields(hired, today.year);
      OrderIsDayOrder(today, ThisYears(hired, today));
    }
    YearsAround(hired, today);
    LatestUpTo(hired, DayNumber(today), today.year);
  }

  lemma LeapDayMoves(hired: Date, today: Date)
    requires Valid(hired) && Valid(today) && LeapDay(hired) && (Leap(today.year + 1) || Leap(today.year - 1))
    ensures ThisYears(hired, today) == Date(today.year, 3, 1)
  {
  }

  /**
   The next anniversary shown is the first one from today on, except for a hire on 29 February seen after
   1 March of the year before a leap year: the day moved to 1 March then stays there.
   */
  lemma NextIsFirst(hired: Date, today: Date)
    requires Valid(hired) && Valid(today) && 2 <= today.year
    ensures IsFirstFrom(hired, DayNumber(today), DayNumber(Next(hired, today))) <==>
            !(LeapDay(hired) && Leap(today.year + 1) && EarlierInYear(Date(today.year, 3, 1), today))
  {
    if LeapDay(hired) && Leap(today.year + 1) {
      LeapDayMoves(hired, today);
    }
    if EarlierInYear(ThisYears(hired, today), today) {
      NextOncePassed(hired, today);
    } else {
      NextUntilPassed(hired, today);
    }
  }

  /** The same for the last anniversary: it drifts for 29 February seen before 1 March of the year after a leap year. */
  lemma LastIsLatest(hired: Date, today: Date)
    requires Valid(hired) && Valid(today) && 2 <= today.year
    ensures IsLatestUpTo(hired, DayNumber(today), DayNumber(Last(hired, today))) <==>
            !(LeapDay(hired) && Leap(today.year - 1) && EarlierInYear(today, Date(today.year, 3, 1)))
  {
    if LeapDay(hired) && Leap(today.year - 1) {
      LeapDayMoves(hired, today);
    }
    if EarlierInYear(today, ThisYears(hired, today)) {
      LastWhileAhead(hired, today);
    } else {
      LastOnceReached(hired, today);
    }
  }

  /**
   The years shown beside the last anniversary are the full years served, also where its date drifts; those
   shown beside the next one are one too many exactly while this year's anniversary is still ahead.
   */
  lemma YearsServed(hired: Date, today: Date)
    requires Valid(hired) && Valid(today) && 2 <= today.year && !Earlier(today, hired)
    ensures var served := Last(hired, today).year - hired.year;
            && 0 <= served
            && AnniversaryDay(hired, hired.year + served) <= DayNumber(today)
            && DayNumber(today) < AnniversaryDay(hired, hired.year + served + 1)
            && today.year - hired.year == if Earlier(today, ThisYears(hired, today)) then served + 1 else served
  {
    var a := ThisYears(hired, today);
    AnniversaryFields(hired, today.year);
    AnniversaryFields(hired, hired.year);
    YearsAround(hired, today);
    OrderIsDayOrder(today, a);
  }
}

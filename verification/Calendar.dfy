/** Days since 1970-01-01 as dates of the Gregorian calendar. */
module Calendar {
  import opened Numbers

  datatype Date = Date(year: int, month: int, day: int)

  // ----- the calendar itself -----

  predicate IsLeap(year: int) { year % 4 == 0 && (year % 100 != 0 || year % 400 == 0) }

  function DaysInMonth(year: int, month: int): int {
    if month == 2 then (if IsLeap(year) then 29 else 28)
    else if month in {4, 6, 9, 11} then 30
    else 31
  }

  predicate ValidDate(date: Date) { 1 <= date.month <= 12 && 1 <= date.day <= DaysInMonth(date.year, date.month) }

  function NextDate(date: Date): Date {
    if date.day < DaysInMonth(date.year, date.month) then date.(day := date.day + 1)
    else if date.month < 12 then Date(date.year, date.month + 1, 1)
    else Date(date.year + 1, 1, 1)
  }

  predicate Before(a: Date, b: Date) {
    a.year < b.year || (a.year == b.year && (a.month < b.month || (a.month == b.month && a.day < b.day)))
  }

  // ----- the closed form -----

  /** Division of `i64`: towards zero. */
  function Truncated(a: int, b: int): int
    requires b > 0
  {
    if a >= 0 then a / b else -((-a) / b)
  }

  function EraOf(shiftedDays: int): int {
    if shiftedDays >= 0 then Truncated(shiftedDays, 146_097) else Truncated(shiftedDays - 146_096, 146_097)
  }

  function YearOfEra(dayOfEra: int): int
    requires 0 <= dayOfEra
  {
    Truncated(dayOfEra - Truncated(dayOfEra, 1_460) + Truncated(dayOfEra, 36_524) - Truncated(dayOfEra, 146_096), 365)
  }

  function DayOfYear(dayOfEra: int): int
    requires 0 <= dayOfEra
  {
    var yearOfEra := YearOfEra(dayOfEra);
    dayOfEra - (365 * yearOfEra + Truncated(yearOfEra, 4) - Truncated(yearOfEra, 100))
  }

  /** The date of a day in a year that starts in March. */
  function DateInMarchYear(marchYear: int, dayOfYear: int): Date {
    var monthPiece := Truncated(5 * dayOfYear + 2, 153);
    var day := dayOfYear - Truncated(153 * monthPiece + 2, 5) + 1;
    var month := monthPiece + if monthPiece < 10 then 3 else -9;
    Date(marchYear + if month <= 2 then 1 else 0, month, day)
  }

  lemma EraIsFloor(shiftedDays: int)
    ensures EraOf(shiftedDays) == shiftedDays / 146_097
    ensures 0 <= shiftedDays - EraOf(shiftedDays) * 146_097 <= 146_096
  {
  }

  function CivilFromDays(daysSinceEpoch: int): Date {
    var shiftedDays := daysSinceEpoch + 719_468;
    var era := EraOf(shiftedDays);
    var dayOfEra := shiftedDays - era * 146_097;
    EraIsFloor(shiftedDays);
    var year := YearOfEra(dayOfEra) + era * 400;
    DateInMarchYear(year, DayOfYear(dayOfEra))
  }

  // ----- years that start in March -----

  /** Days from 1 March of year 0 to 1 March of `year`. */
  function MarchStart(year: int): int { 365 * year + year / 4 - year / 100 + year / 400 }

  /** A year from March to February has the leap day of the following January-to-December year. */
  function MarchYearLength(year: int): int { if IsLeap(year + 1) then 366 else 365 }

  lemma QuotientSteps(n: int, d: int)
    requires d > 1
    ensures (n + 1) / d == n / d + if (n + 1) % d == 0 then 1 else 0
  {
    var q, r := n / d, n % d;
    assert n == d * q + r;
    if r + 1 == d {
      assert d * (q + 1) == d * q + d;
      DivisionIs(n + 1, d, q + 1);
      RemainderIs(n + 1, d, q + 1, 0);
    } else {
      DivisionIs(n + 1, d, q);
      RemainderIs(n + 1, d, q, r + 1);
    }
  }

  lemma MultiplesNest(n: int)
    ensures n % 400 == 0 ==> n % 100 == 0
    ensures n % 100 == 0 ==> n % 4 == 0
  {
    RemainderIs(n, 4, 25 * (n / 100) + n % 100 / 4, n % 100 % 4);
    RemainderIs(n, 100, 4 * (n / 400) + n % 400 / 100, n % 400 % 100);
  }

  lemma MarchYearFollows(year: int)
    ensures MarchStart(year + 1) == MarchStart(year) + MarchYearLength(year)
  {
    QuotientSteps(year, 4);
    QuotientSteps(year, 100);
    QuotientSteps(year, 400);
    MultiplesNest(year + 1);
  }

  lemma {:induction false} MarchStartsAscend(a: int, b: int)
    requires a < b
    ensures MarchStart(a) + MarchYearLength(a) <= MarchStart(b)
    decreases b - a
  {
    MarchYearFollows(a);
    if a + 1 < b { MarchStartsAscend(a + 1, b); }
  }

  /** Only one year of the calendar contains a day. */
  lemma MarchYearIsUnique(a: int, i: int, b: int, j: int)
    requires 0 <= i < MarchYearLength(a) && 0 <= j < MarchYearLength(b)
    requires MarchStart(a) + i == MarchStart(b) + j
    ensures a == b && i == j
  {
    if a < b { MarchStartsAscend(a, b); }
    if b < a { MarchStartsAscend(b, a); }
  }

  // ----- the closed form finds that year -----

  /** A day of the 400-year era as century, four-year group, year of the group and day of that year. */
  lemma SplitEra(dayOfEra: int) returns (century: int, group: int, year: int, day: int)
    requires 0 <= dayOfEra <= 146_096
    ensures 0 <= century <= 3 && 0 <= group <= 24 && 0 <= year <= 3 && 0 <= day <= 365
    ensures dayOfEra == 36_524 * century + 1_461 * group + 365 * year + day
    ensures day == 365 ==> year == 3 && (group < 24 || century == 3)
  {
    century := if dayOfEra == 146_096 then 3 else dayOfEra / 36_524;
    var dayOfCentury := dayOfEra - 36_524 * century;
    group := dayOfCentury / 1_461;
    var dayOfGroup := dayOfCentury - 1_461 * group;
    year := if dayOfGroup == 1_460 then 3 else dayOfGroup / 365;
    day := dayOfGroup - 365 * year;
  }

  lemma QuotientIs(n: int, d: int, q: int)
    requires 0 <= n && d > 0 && d * q <= n < d * q + d
    ensures Truncated(n, d) == q
  {
    DivisionIs(n, d, q);
  }

  /** The chain of corrections comes out as 365 times the year and something below 365. */
  lemma YearOfEraIsRight(century: int, group: int, year: int, day: int)
    requires 0 <= century <= 3 && 0 <= group <= 24 && 0 <= year <= 3 && 0 <= day <= 365
    requires day == 365 ==> year == 3 && (group < 24 || century == 3)
    ensures YearOfEra(36_524 * century + 1_461 * group + 365 * year + day) == 100 * century + 4 * group + year
  {
    hide Truncated;
    var dayOfEra := 36_524 * century + 1_461 * group + 365 * year + day;
    var carry := if 24 * century + group + 365 * year + day >= 1_460 then 1 else 0;
    var last := if dayOfEra == 146_096 then 1 else 0;
    QuotientIs(dayOfEra, 1_460, 25 * century + group + carry);
    QuotientIs(dayOfEra, 36_524, century + last);
    QuotientIs(dayOfEra, 146_096, last);
    var yearOfEra := 100 * century + 4 * group + year;
    var dividend := dayOfEra - (25 * century + group + carry) + (century + last) - last;
    assert dividend == 365 * yearOfEra + day - carry;
    QuotientIs(dividend, 365, yearOfEra);
  }

  /** Which March-based year a day falls in, and where. */
  lemma ClosedFormFindsTheYear(daysSinceEpoch: int) returns (year: int, day: int)
    ensures 0 <= day < MarchYearLength(year)
    ensures daysSinceEpoch + 719_468 == MarchStart(year) + day
    ensures CivilFromDays(daysSinceEpoch) == DateInMarchYear(year, day)
  {
    hide Truncated;
    hide YearOfEra;
    hide EraOf;
    hide MarchStart;
    hide IsLeap;
    hide DateInMarchYear;
    var shiftedDays := daysSinceEpoch + 719_468;
    EraIsFloor(shiftedDays);
    var era := EraOf(shiftedDays);
    var dayOfEra := shiftedDays - era * 146_097;
    var c, g, y, d := SplitEra(dayOfEra);
    YearOfEraIsRight(c, g, y, d);
    var yearOfEra := 100 * c + 4 * g + y;
    QuotientIs(yearOfEra, 4, 25 * c + g);
    QuotientIs(yearOfEra, 100, c);
    year, day := yearOfEra + era * 400, d;
    EraStart(era, c, g, y);
    LeapInEra(era, c, g, y);
  }

  lemma EraStart(era: int, century: int, group: int, year: int)
    requires 0 <= century <= 3 && 0 <= group <= 24 && 0 <= year <= 3
    ensures MarchStart(100 * century + 4 * group + year + era * 400)
            == 146_097 * era + 36_524 * century + 1_461 * group + 365 * year
  {
    var y := 100 * century + 4 * group + year + era * 400;
    DivisionIs(y, 4, 25 * century + group + 100 * era);
    DivisionIs(y, 100, century + 4 * era);
    DivisionIs(y, 400, era);
  }

  lemma LeapInEra(era: int, century: int, group: int, year: int)
    requires 0 <= century <= 3 && 0 <= group <= 24 && 0 <= year <= 3
    ensures IsLeap(100 * century + 4 * group + year + era * 400 + 1) <==> year == 3 && (group < 24 || century == 3)
  {
    var y := 100 * century + 4 * group + year + era * 400 + 1;
    var next := if year == 3 then 1 else 0;
    RemainderIs(y, 4, 25 * century + group + 100 * era + next, if year == 3 then 0 else year + 1);
    if year == 3 {
      var turn := if group == 24 then 1 else 0;
      RemainderIs(y, 100, century + 4 * era + turn, 4 * group + 4 - 100 * turn);
      if group == 24 {
        var full := if century == 3 then 1 else 0;
        RemainderIs(y, 400, era + full, 100 * century + 100 - 400 * full);
      }
    }
  }

  // ----- the main results -----

  lemma MarchDateIsValid(year: int, day: int)
    requires 0 <= day < MarchYearLength(year)
    ensures ValidDate(DateInMarchYear(year, day))
  {
  }

  /** Days from 1 March to the first of the month that is `piece` months later. */
  function MonthStart(piece: int): int { (153 * piece + 2) / 5 }

  lemma MonthPieceIs(day: int, piece: int)
    requires 0 <= piece <= 11 && MonthStart(piece) <= day < MonthStart(piece + 1)
    ensures Truncated(5 * day + 2, 153) == piece && Truncated(153 * piece + 2, 5) == MonthStart(piece)
  {
    QuotientIs(5 * day + 2, 153, piece);
  }

  lemma PieceOf(day: int) returns (piece: int)
    requires 0 <= day <= 365
    ensures 0 <= piece <= 11 && MonthStart(piece) <= day < MonthStart(piece + 1)
  {
    piece := (5 * day + 2) / 153;
  }

  lemma MonthLength(year: int, piece: int)
    requires 0 <= piece <= 11
    ensures piece < 10 ==> DaysInMonth(year, piece + 3) == MonthStart(piece + 1) - MonthStart(piece)
    ensures piece == 10 ==> DaysInMonth(year + 1, 1) == MonthStart(11) - MonthStart(10)
    ensures piece == 11 ==> DaysInMonth(year + 1, 2) == MarchYearLength(year) - MonthStart(11)
    ensures MonthStart(0) == 0 && MonthStart(11) < 365 < MonthStart(12)
  {
  }

  lemma NextInMarchYear(year: int, day: int)
    requires 0 <= day < MarchYearLength(year)
    ensures NextDate(DateInMarchYear(year, day))
            == if day + 1 < MarchYearLength(year) then DateInMarchYear(year, day + 1)
               else DateInMarchYear(year + 1, 0)
  {
    hide Truncated;
    hide IsLeap;
    var piece := PieceOf(day);
    MonthPieceIs(day, piece);
    MonthLength(year, piece);
    if day + 1 < MarchYearLength(year) {
      MonthPieceIs(day + 1, if day + 1 < MonthStart(piece + 1) then piece else piece + 1);
    } else {
      MonthPieceIs(0, 0);
    }
    hide MonthStart;
    hide DaysInMonth;
  }

  lemma Epoch()
    ensures CivilFromDays(0) == Date(1970, 1, 1)
  {
    assert EraOf(719_468) == 4 && YearOfEra(135_080) == 369 && DayOfYear(135_080) == 306;
  }

  /** Day 0 is 1 January 1970, every day has a date of the Gregorian calendar, and the day after has the
      next date of the calendar. */
  lemma DaysAreDates(daysSinceEpoch: int)
    ensures CivilFromDays(0) == Date(1970, 1, 1)
    ensures ValidDate(CivilFromDays(daysSinceEpoch))
    ensures CivilFromDays(daysSinceEpoch + 1) == NextDate(CivilFromDays(daysSinceEpoch))
  {
    Epoch();
    hide CivilFromDays;
    hide DateInMarchYear;
    hide ValidDate;
    hide NextDate;
    hide MarchStart;
    hide IsLeap;
    var year, day := ClosedFormFindsTheYear(daysSinceEpoch);
    var year', day' := ClosedFormFindsTheYear(daysSinceEpoch + 1);
    MarchDateIsValid(year, day);
    NextInMarchYear(year, day);
    MarchYearFollows(year);
    if day + 1 < MarchYearLength(year) {
      MarchYearIsUnique(year, day + 1, year', day');
    } else {
      MarchYearIsUnique(year + 1, 0, year', day');
    }
  }

  lemma NextIsLater(date: Date)
    ensures Before(date, NextDate(date))
  {
  }

  /** Later days have later dates. */
  lemma {:induction false} DatesAscend(a: int, b: int)
    requires a < b
    ensures Before(CivilFromDays(a), CivilFromDays(b))
    decreases b - a
  {
    hide CivilFromDays;
    DaysAreDates(b - 1);
    if a < b - 1 { DatesAscend(a, b - 1); }
    NextIsLater(CivilFromDays(b - 1));
  }

  lemma YearsFromEpoch(daysSinceEpoch: int)
    requires 0 <= daysSinceEpoch
    ensures 1970 <= CivilFromDays(daysSinceEpoch).year <= 1971 + daysSinceEpoch / 365
  {
    hide CivilFromDays;
    DaysAreDates(0);
    if 0 < daysSinceEpoch { DatesAscend(0, daysSinceEpoch); }
    var year, day := ClosedFormFindsTheYear(daysSinceEpoch);
    hide IsLeap;
  }
}

/** Session file names: the civil time of the id's millisecond timestamp, then the id itself. */
module SessionFilename {
  import opened Numbers
  import opened TextOrder
  import opened Calendar

  const TWO_TO_80 := 0x1_0000_0000_0000_0000_0000
  const TWO_TO_128 := 0x1_0000_0000_0000_0000_0000_0000_0000_0000

  /** A UUID as its 128-bit number; the highest 48 bits are milliseconds since 1970-01-01. */
  type SessionId = id: int | 0 <= id < TWO_TO_128

  function TimestampMillis(id: SessionId): nat { id / TWO_TO_80 }

  // ----- numbers as digits -----

  function PadLeft(digits: string, width: nat): string
    decreases width - |digits|
  {
    if |digits| < width then PadLeft(['0'] + digits, width) else digits
  }

  /** `{n:0width}` */
  function Padded(n: nat, width: nat): string { PadLeft(Decimal(n), width) }

  /** The lowest `width` digits of `n`. */
  function Digits(n: nat, base: nat, width: nat): (digits: string)
    requires 2 <= base <= 16
    ensures |digits| == width
    decreases width
  {
    if width == 0 then [] else Digits(n / base, base, width - 1) + [DigitChar(n % base)]
  }

  function Power(base: nat, n: nat): nat { if n == 0 then 1 else base * Power(base, n - 1) }

  lemma {:induction false} DigitsOfZero(base: nat, width: nat)
    requires 2 <= base <= 16
    ensures Digits(0, base, width) == seq(width, _ => '0')
  {
    if width > 0 { DigitsOfZero(base, width - 1); }
  }

  lemma {:induction false} PadLeftPads(digits: string, width: nat)
    requires |digits| <= width
    ensures PadLeft(digits, width) == seq(width - |digits|, _ => '0') + digits
    decreases width - |digits|
  {
    if |digits| < width {
      PadLeftPads(['0'] + digits, width);
      assert seq(width - |digits|, _ => '0') == seq(width - |digits| - 1, _ => '0') + ['0'];
    }
  }

  /** Padding a number that fits writes exactly its digits. */
  lemma {:induction false} PaddedIsDigits(n: nat, width: nat)
    requires 0 < width && n < Power(10, width)
    ensures |Decimal(n)| <= width && Padded(n, width) == Digits(n, 10, width)
    decreases width
  {
    if n < 10 {
      assert n / 10 == 0;
      DigitsOfZero(10, width - 1);
      PadLeftPads(Decimal(n), width);
    } else {
      assert 1 < width by { assert Power(10, 1) == 10; }
      PaddedIsDigits(n / 10, width - 1);
      PadLeftPads(Decimal(n / 10), width - 1);
      PadLeftPads(Decimal(n), width);
    }
  }

  lemma QuotientsThenRemainders(m: nat, n: nat, base: nat)
    requires 2 <= base
    ensures CompareInts(m / base, n / base).Then(CompareInts(m % base, n % base)) == CompareInts(m, n)
  {
    var p, q := m / base, n / base;
    assert m == base * p + m % base && n == base * q + n % base;
    if p < q { TimesAtLeast(base, p + 1, q); }
    if q < p { TimesAtLeast(base, q + 1, p); }
  }

  lemma QuotientFits(n: nat, base: nat, width: nat)
    requires 2 <= base && 0 < width && n < Power(base, width)
    ensures n / base < Power(base, width - 1)
  {
    var q, p := n / base, Power(base, width - 1);
    if p <= q { TimesAtLeast(base, p, q); }
  }

  lemma {:induction false} AppendedDigitCompares(x: string, y: string, c: nat, d: nat)
    requires |x| == |y| && c < 16 && d < 16
    ensures CompareStrings(x + [DigitChar(c)], y + [DigitChar(d)]) == CompareStrings(x, y).Then(CompareInts(c, d))
  {
    ComparesByHead(x, y, [DigitChar(c)], [DigitChar(d)]);
    assert CompareStrings([DigitChar(c)], [DigitChar(d)]) == CompareInts(c, d);
  }

  /** Fixed-width digits compare as their numbers do. */
  lemma {:induction false} DigitsCompare(m: nat, n: nat, base: nat, width: nat)
    requires 2 <= base <= 16 && m < Power(base, width) && n < Power(base, width)
    ensures CompareStrings(Digits(m, base, width), Digits(n, base, width)) == CompareInts(m, n)
    decreases width
  {
    if width > 0 {
      QuotientFits(m, base, width);
      QuotientFits(n, base, width);
      hide Power;
      hide CompareStrings;
      hide DigitChar;
      DigitsCompare(m / base, n / base, base, width - 1);
      AppendedDigitCompares(Digits(m / base, base, width - 1), Digits(n / base, base, width - 1), m % base, n % base);
      QuotientsThenRemainders(m, n, base);
    }
  }

  /** A number in front of a text: numbers that fit the width compare first. */
  lemma {:induction false} PaddedCompares(m: nat, n: nat, width: nat, x: string, y: string)
    requires 0 < width && m < Power(10, width) && n < Power(10, width)
    ensures |Padded(m, width)| == |Padded(n, width)| == width
    ensures CompareStrings(Padded(m, width) + x, Padded(n, width) + y) == CompareInts(m, n).Then(CompareStrings(x, y))
  {
    PaddedIsDigits(m, width);
    PaddedIsDigits(n, width);
    DigitsCompare(m, n, 10, width);
    ComparesByHead(Padded(m, width), Padded(n, width), x, y);
  }

  // ----- the time stamp -----

  const I64_MAX := 0x7FFF_FFFF_FFFF_FFFF

  datatype CivilTime = CivilTime(date: Date, hour: nat, minute: nat, second: nat)

  function Seconds(millis: nat): nat {
    var seconds := millis / 1_000;
    if seconds < I64_MAX then seconds else I64_MAX
  }

  function TimeOf(seconds: nat): CivilTime {
    var ofDay := seconds % 86_400;
    CivilTime(CivilFromDays(seconds / 86_400), ofDay / 3_600, ofDay % 3_600 / 60, ofDay % 60)
  }

  function Stamp(time: CivilTime): string
    requires time.date.year >= 0 && ValidDate(time.date)
  {
    Padded(time.date.year, 4) + ("-" + AfterYear(time))
  }

  function AfterYear(time: CivilTime): string
    requires ValidDate(time.date)
  {
    Padded(time.date.month, 2) + ("-" + (Padded(time.date.day, 2) + ("T"
    + (Padded(time.hour, 2) + ("-" + (Padded(time.minute, 2) + ("-" + Padded(time.second, 2))))))))
  }

  function FormatFilenameTimestampMillis(millis: nat): string {
    YearsFromEpoch(Seconds(millis) / 86_400);
    DaysAreDates(Seconds(millis) / 86_400);
    Stamp(TimeOf(Seconds(millis)))
  }

  /** Puts a hyphen behind each group of the given width. */
  function Hyphenate(hex: string, widths: seq<nat>): string {
    if widths == [] || |hex| < widths[0] then hex
    else hex[..widths[0]] + ("-" + Hyphenate(hex[widths[0]..], widths[1..]))
  }

  function Hyphenated(id: SessionId): string { Hyphenate(Digits(id, 16, 32), [8, 4, 4, 4]) }

  function SessionFilename(id: SessionId): string {
    FormatFilenameTimestampMillis(TimestampMillis(id)) + ("_" + (Hyphenated(id) + ".jsonl"))
  }

  function YearOf(id: SessionId): int { TimeOf(Seconds(TimestampMillis(id))).date.year }

  // ----- names sort like ids -----

  function CompareTimes(t: CivilTime, u: CivilTime): Ordering {
    CompareInts(t.date.year, u.date.year).Then(CompareInts(t.date.month, u.date.month).Then(
      CompareInts(t.date.day, u.date.day).Then(CompareInts(t.hour, u.hour).Then(
        CompareInts(t.minute, u.minute).Then(CompareInts(t.second, u.second))))))
  }

  lemma LaterTimesCompareLess(s: nat, t: nat)
    requires s < t
    ensures CompareTimes(TimeOf(s), TimeOf(t)) == Less
  {
    hide CivilFromDays;
    if s / 86_400 < t / 86_400 {
      DatesAscend(s / 86_400, t / 86_400);
    } else {
      TimesOfDayAscend(s % 86_400, t % 86_400);
    }
  }

  lemma TimesOfDayAscend(s: nat, t: nat)
    requires s < t < 86_400
    ensures CompareInts(s / 3_600, t / 3_600).Then(
              CompareInts(s % 3_600 / 60, t % 3_600 / 60).Then(CompareInts(s % 60, t % 60))) == Less
  {
    SplitMinute(s);
    SplitMinute(t);
  }

  lemma SplitMinute(s: nat)
    ensures s == s / 3_600 * 3_600 + s % 3_600 / 60 * 60 + s % 60 && s % 3_600 < 3_600
  {
    var ofHour := s % 3_600;
    RemainderIs(s, 60, 60 * (s / 3_600) + ofHour / 60, ofHour % 60);
  }

  predicate ValidTime(t: CivilTime) {
    ValidDate(t.date) && t.date.year >= 0 && t.hour < 24 && t.minute < 60 && t.second < 60
  }

  lemma FieldCompares(m: nat, n: nat, width: nat, separator: char, x: string, y: string)
    requires 0 < width && m < Power(10, width) && n < Power(10, width)
    ensures CompareStrings(Padded(m, width) + ([separator] + x), Padded(n, width) + ([separator] + y))
            == CompareInts(m, n).Then(CompareStrings(x, y))
    ensures |Padded(m, width)| == |Padded(n, width)| == width
  {
    PaddedCompares(m, n, width, [separator] + x, [separator] + y);
    ComparesByHead([separator], [separator], x, y);
    assert CompareStrings([separator], [separator]) == Equal;
  }

  lemma {:induction false} DecimalLength(n: nat, width: nat)
    requires Power(10, width) <= n
    ensures width < |Decimal(n)|
    decreases width
  {
    if width > 0 {
      PowerIsPositive(10, width - 1);
      assert Power(10, width) == 10 * Power(10, width - 1);
      DecimalLength(n / 10, width - 1);
    }
  }

  lemma {:induction false} PowerIsPositive(base: nat, n: nat)
    requires 0 < base
    ensures 0 < Power(base, n)
  {
    if n > 0 {
      PowerIsPositive(base, n - 1);
      TimesAtLeast(base, 1, Power(base, n - 1));
    }
  }

  lemma PowersOfTen()
    ensures Power(10, 2) == 100 && Power(10, 4) == 10_000 && Power(10, 5) == 100_000
  {
    assert Power(10, 1) == 10 && Power(10, 3) == 1_000;
  }

  /** From the year 10000 on the year field is five characters wide. */
  lemma WideYear(year: nat)
    requires 10_000 <= year < 100_000
    ensures Padded(year, 4) == Padded(year, 5) == Digits(year, 10, 5)
  {
    PowersOfTen();
    DecimalLength(year, 4);
    PaddedIsDigits(year, 5);
  }

  predicate SameYearWidth(t: CivilTime, u: CivilTime) { t.date.year < 10_000 <==> u.date.year < 10_000 }

  lemma StampsCompare(t: CivilTime, u: CivilTime)
    requires ValidTime(t) && ValidTime(u) && SameYearWidth(t, u) && t.date.year < 100_000 && u.date.year < 100_000
    ensures |Stamp(t)| == |Stamp(u)|
    ensures CompareStrings(Stamp(t), Stamp(u)) == CompareTimes(t, u)
  {
    PowersOfTen();
    hide CompareStrings;
    hide Padded;
    hide Power;
    var t5, u5 := Padded(t.second, 2), Padded(u.second, 2);
    PaddedCompares(t.second, u.second, 2, [], []);
    assert t5 + [] == t5 && u5 + [] == u5;
    var t4, u4 := Padded(t.minute, 2) + ("-" + t5), Padded(u.minute, 2) + ("-" + u5);
    FieldCompares(t.minute, u.minute, 2, '-', t5, u5);
    var t3, u3 := Padded(t.hour, 2) + ("-" + t4), Padded(u.hour, 2) + ("-" + u4);
    FieldCompares(t.hour, u.hour, 2, '-', t4, u4);
    var t2, u2 := Padded(t.date.day, 2) + ("T" + t3), Padded(u.date.day, 2) + ("T" + u3);
    FieldCompares(t.date.day, u.date.day, 2, 'T', t3, u3);
    var t1, u1 := Padded(t.date.month, 2) + ("-" + t2), Padded(u.date.month, 2) + ("-" + u2);
    FieldCompares(t.date.month, u.date.month, 2, '-', t2, u2);
    if t.date.year < 10_000 {
      FieldCompares(t.date.year, u.date.year, 4, '-', t1, u1);
    } else {
      WideYear(t.date.year);
      WideYear(u.date.year);
      FieldCompares(t.date.year, u.date.year, 5, '-', t1, u1);
    }
    ComparesEqualToItself([]);
  }

  lemma {:induction false} HyphenateCompares(x: string, y: string, widths: seq<nat>)
    requires |x| == |y|
    ensures |Hyphenate(x, widths)| == |Hyphenate(y, widths)|
    ensures CompareStrings(Hyphenate(x, widths), Hyphenate(y, widths)) == CompareStrings(x, y)
    decreases |widths|
  {
    hide CompareStrings;
    if widths != [] && widths[0] <= |x| {
      var w := widths[0];
      var restX, restY := Hyphenate(x[w..], widths[1..]), Hyphenate(y[w..], widths[1..]);
      HyphenateCompares(x[w..], y[w..], widths[1..]);
      ComparesByHead(x[..w], y[..w], "-" + restX, "-" + restY);
      ComparesByHead("-", "-", restX, restY);
      ComparesEqualToItself("-");
      ComparesByHead(x[..w], y[..w], x[w..], y[w..]);
      assert x[..w] + x[w..] == x && y[..w] + y[w..] == y;
    }
  }

  /** The identifiers themselves, written with hyphens, compare as numbers. */
  lemma HyphenatedCompares(a: SessionId, b: SessionId)
    ensures |Hyphenated(a)| == |Hyphenated(b)| && CompareStrings(Hyphenated(a), Hyphenated(b)) == CompareInts(a, b)
  {
    Power16();
    DigitsCompare(a, b, 16, 32);
    HyphenateCompares(Digits(a, 16, 32), Digits(b, 16, 32), [8, 4, 4, 4]);
  }

  lemma Power16()
    ensures Power(16, 32) == TWO_TO_128
  {
    assert Power(16, 4) == 0x1_0000;
    assert Power(16, 8) == 0x1_0000_0000;
    assert Power(16, 12) == 0x1_0000_0000_0000;
    assert Power(16, 16) == 0x1_0000_0000_0000_0000;
    assert Power(16, 20) == TWO_TO_80;
    assert Power(16, 24) == 0x1_0000_0000_0000_0000_0000_0000;
    assert Power(16, 28) == 0x1_0000_0000_0000_0000_0000_0000_0000;
  }

  lemma TimesAreValid(id: SessionId)
    ensures var t := TimeOf(Seconds(TimestampMillis(id)));
      ValidTime(t) && t.date.year == YearOf(id) && 1970 <= t.date.year < 19_700
  {
    var days := Seconds(TimestampMillis(id)) / 86_400;
    assert TimestampMillis(id) < 0x1_0000_0000_0000;
    YearsFromEpoch(days);
    DaysAreDates(days);
    hide CivilFromDays;
  }

  lemma SecondsAscend(a: SessionId, b: SessionId)
    requires a < b
    ensures Seconds(TimestampMillis(a)) <= Seconds(TimestampMillis(b))
  {
  }

  lemma SameWidthNamesAscend(a: SessionId, b: SessionId)
    requires a < b && (YearOf(a) < 10_000 <==> YearOf(b) < 10_000)
    ensures CompareStrings(SessionFilename(a), SessionFilename(b)) == Less
  {
    hide TimeOf;
    hide Seconds;
    hide TimestampMillis;
    hide Stamp;
    hide Hyphenated;
    hide CompareStrings;
    var s, t := Seconds(TimestampMillis(a)), Seconds(TimestampMillis(b));
    TimesAreValid(a);
    TimesAreValid(b);
    StampsCompare(TimeOf(s), TimeOf(t));
    HyphenatedCompares(a, b);
    SecondsAscend(a, b);
    if s < t { LaterTimesCompareLess(s, t); }
    var x, y := "_" + (Hyphenated(a) + ".jsonl"), "_" + (Hyphenated(b) + ".jsonl");
    ComparesByHead(Stamp(TimeOf(s)), Stamp(TimeOf(t)), x, y);
    ComparesByHead("_", "_", Hyphenated(a) + ".jsonl", Hyphenated(b) + ".jsonl");
    ComparesEqualToItself("_");
    ComparesByHead(Hyphenated(a), Hyphenated(b), ".jsonl", ".jsonl");
  }

  /** A four-digit year from 1970 on sorts behind every year from 10000 to 19699: the fifth digit shifts
      the others. */
  lemma WiderYearsSortFirst(t: CivilTime, u: CivilTime, x: string, y: string)
    requires ValidTime(t) && ValidTime(u) && 1970 <= t.date.year < 10_000 <= u.date.year < 19_700
    ensures CompareStrings(Stamp(t) + x, Stamp(u) + y) == Greater
  {
    var year, wide := t.date.year, u.date.year;
    var head, last := WideYearSplits(year, wide);
    hide CompareStrings;
    hide Padded;
    hide AfterYear;
    var restT, restU := "-" + AfterYear(t), "-" + AfterYear(u);
    assert Stamp(t) == Padded(year, 4) + restT && Stamp(u) == Padded(wide, 4) + restU;
    hide *;
    Associates(Padded(year, 4), restT, x);
    Associates(head + last, restU, y);
    Associates(head, last, restU + y);
    ComparesByHead(Padded(year, 4), head, restT + x, last + (restU + y));
  }

  lemma Associates(a: string, b: string, c: string)
    ensures (a + b) + c == a + (b + c)
  {
  }

  lemma WideYearSplits(year: nat, wide: nat) returns (head: string, last: string)
    requires 1970 <= year < 10_000 <= wide < 19_700
    ensures Padded(wide, 4) == head + last && |head| == 4 == |Padded(year, 4)|
    ensures CompareStrings(Padded(year, 4), head) == Greater
  {
    PowersOfTen();
    WideYear(wide);
    PaddedIsDigits(year, 4);
    head, last := Digits(wide / 10, 10, 4), [DigitChar(wide % 10)];
    DigitsCompare(year, wide / 10, 10, 4);
    hide CompareStrings;
    hide Padded;
    hide Power;
  }

  /** Among any two ids the smaller has the name that sorts first, exactly when both or neither date
      from before the year 10000. */
  lemma NamesSortLikeIds(a: SessionId, b: SessionId)
    requires a < b
    ensures CompareStrings(SessionFilename(a), SessionFilename(b)) == Less
            <==> (YearOf(a) < 10_000 <==> YearOf(b) < 10_000)
  {
    if YearOf(a) < 10_000 <==> YearOf(b) < 10_000 {
      SameWidthNamesAscend(a, b);
    } else {
      YearsAscend(a, b);
      NamesSplitAtTenThousand(a, b);
    }
  }

  lemma NamesSplitAtTenThousand(a: SessionId, b: SessionId)
    requires YearOf(a) < 10_000 <= YearOf(b)
    ensures CompareStrings(SessionFilename(a), SessionFilename(b)) == Greater
  {
    TimesAreValid(a);
    TimesAreValid(b);
    hide Stamp;
    hide CompareStrings;
    hide Hyphenated;
    hide TimeOf;
    var t, u := TimeOf(Seconds(TimestampMillis(a))), TimeOf(Seconds(TimestampMillis(b)));
    WiderYearsSortFirst(t, u, "_" + (Hyphenated(a) + ".jsonl"), "_" + (Hyphenated(b) + ".jsonl"));
  }

  lemma YearsAscend(a: SessionId, b: SessionId)
    requires a < b
    ensures YearOf(a) <= YearOf(b)
  {
    hide TimeOf;
    hide Seconds;
    hide TimestampMillis;
    var s, t := Seconds(TimestampMillis(a)), Seconds(TimestampMillis(b));
    SecondsAscend(a, b);
    if s < t { LaterTimesCompareLess(s, t); }
  }

  /** So the first name of the year 10000 sorts before the last of the year 9999. */
  lemma YearTenThousandSortsBeforeItsEve()
    ensures var eve: SessionId, newYear: SessionId := 253_402_300_799_999 * TWO_TO_80, 253_402_300_800_000 * TWO_TO_80;
      && eve < newYear && YearOf(eve) == 9_999 && YearOf(newYear) == 10_000
      && CompareStrings(SessionFilename(eve), SessionFilename(newYear)) == Greater
  {
    var eve: SessionId, newYear: SessionId := 253_402_300_799_999 * TWO_TO_80, 253_402_300_800_000 * TWO_TO_80;
    assert Seconds(TimestampMillis(eve)) / 86_400 == 2_932_896;
    assert Seconds(TimestampMillis(newYear)) / 86_400 == 2_932_897;
    AroundTheYearTenThousand();
    hide CivilFromDays;
    NamesSplitAtTenThousand(eve, newYear);
  }

  lemma AroundTheYearTenThousand()
    ensures CivilFromDays(2_932_896) == Date(9_999, 12, 31) && CivilFromDays(2_932_897) == Date(10_000, 1, 1)
  {
    assert EraOf(3_652_364) == 24 && YearOfEra(146_036) == 399 && DayOfYear(146_036) == 305;
    DaysAreDates(2_932_896);
  }
}

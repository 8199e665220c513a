/**
 Civil dates turned into day counts, weekdays and minutes, against counting days one by one in the
 proleptic Gregorian calendar (section 5.7 and Appendix C of RFC 3339).
 */
module CivilDate {
  import opened Machine

  // ---- the arithmetic ---------------------------------------------------------------------------

  /** Floored division built from truncated division. */
  function DivFloor(a: int, b: int): int
    requires b != 0
  {
    var q, r := TruncDiv(a, b), TruncMod(a, b);
    if r != 0 && (r < 0) != (b < 0) then q - 1 else q
  }

  /** The remainder has the sign of the divisor, so the quotient is rounded down. */
  lemma DivFloorRoundsDown(a: int, b: int)
    requires b != 0
    ensures var r := a - DivFloor(a, b) * b; if b > 0 then 0 <= r < b else b < r <= 0
    ensures b > 0 ==> DivFloor(a, b) == a / b
  {
    var q := TruncDiv(a, b);
    var m := if a >= 0 then a else -a;
    assert m == m / b * b + m % b;
    assert (-(m / b)) * b == -(m / b * b);
    assert (q - 1) * b == q * b - b;
    if b > 0 {
      DivUnique(a, b, DivFloor(a, b), a - DivFloor(a, b) * b);
    }
  }

  function DaysFromCivil(y: int, m: int, d: int): int {
    var y' := if m <= 2 then y - 1 else y;
    var era := DivFloor(y', 400);
    var yoe := y' - era * 400;
    var mp := if m > 2 then m - 3 else m + 9;
    var doy := TruncDiv(153 * mp + 2, 5) + d - 1;
    var doe := yoe * 365 + TruncDiv(yoe, 4) - TruncDiv(yoe, 100) + doy;
    era * 146097 + doe - 719468
  }

  // ---- the calendar -----------------------------------------------------------------------------

  datatype Date = Date(y: int, m: int, d: int) {
    function Days(): int {
      DaysFromCivil(y, m, d)
    }
  }

  predicate IsLeap(y: int) {
    y % 4 == 0 && (y % 100 != 0 || y % 400 == 0)
  }

  function DaysInMonth(y: int, m: int): int {
    if m == 2 then (if IsLeap(y) then 29 else 28)
    else if m == 4 || m == 6 || m == 9 || m == 11 then 30
    else 31
  }

  predicate ValidDate(t: Date) {
    1 <= t.m <= 12 && 1 <= t.d <= DaysInMonth(t.y, t.m)
  }

  const EPOCH: Date := Date(1970, 1, 1)

  function NextDay(t: Date): Date {
    if t.d < DaysInMonth(t.y, t.m) then Date(t.y, t.m, t.d + 1)
    else if t.m < 12 then Date(t.y, t.m + 1, 1)
    else Date(t.y + 1, 1, 1)
  }

  /** The date n days later, counted one by one. */
  function Advance(t: Date, n: nat): Date {
    if n == 0 then t else NextDay(Advance(t, n - 1))
  }

  predicate Earlier(a: Date, b: Date) {
    a.y < b.y || (a.y == b.y && (a.m < b.m || (a.m == b.m && a.d < b.d)))
  }

  // ---- day counts ---------------------------------------------------------------------------------

  /** Days from the start of March of year 0 to the start of March of year y. */
  function MarchDays(y: int): int {
    365 * y + y / 4 - y / 100 + y / 400
  }

  function MarchYear(t: Date): int {
    if t.m <= 2 then t.y - 1 else t.y
  }

  /** Day of the year that starts in March, from 0. */
  function MarchOffset(t: Date): int
    requires 1 <= t.m <= 12
  {
    (153 * (if t.m > 2 then t.m - 3 else t.m + 9) + 2) / 5 + t.d - 1
  }

  /** The era and year-of-era arithmetic is the usual leap-year count. */
  lemma DaysAreMarchDays(t: Date)
    requires 1 <= t.m <= 12
    ensures t.Days() == MarchDays(MarchYear(t)) + MarchOffset(t) - 719468
  {
    var y := MarchYear(t);
    DivFloorRoundsDown(y, 400);
    var e := y / 400;
    var r := y - 400 * e;
    assert 0 <= r < 400;
    EraSplits(e, r);
  }

  lemma EraSplits(e: int, r: int)
    requires 0 <= r < 400
    ensures (400 * e + r) / 4 == 100 * e + r / 4
    ensures (400 * e + r) / 100 == 4 * e + r / 100
    ensures (400 * e + r) / 400 == e
  {
  }

  lemma MarchYearLength(y: int)
    ensures MarchDays(y + 1) - MarchDays(y) == if IsLeap(y + 1) then 366 else 365
  {
    NextMultiple(y, 4);
    NextMultiple(y, 100);
    NextMultiple(y, 400);
  }

  lemma NextMultiple(y: int, k: int)
    requires k == 4 || k == 100 || k == 400
    ensures (y + 1) / k - y / k == if (y + 1) % k == 0 then 1 else 0
  {
  }

  lemma {:induction false} MarchDaysGrow(a: int, b: int)
    requires a < b
    ensures MarchDays(a + 1) <= MarchDays(b)
    decreases b - a
  {
    MarchYearLength(b - 1);
    if a + 1 < b {
      MarchDaysGrow(a, b - 1);
    }
  }

  lemma OffsetFits(t: Date)
    requires ValidDate(t)
    ensures 0 <= MarchOffset(t) < MarchDays(MarchYear(t) + 1) - MarchDays(MarchYear(t))
  {
    MarchYearLength(MarchYear(t));
  }

  lemma OffsetGrows(a: Date, b: Date)
    requires ValidDate(a) && ValidDate(b) && MarchYear(a) == MarchYear(b) && Earlier(a, b)
    ensures MarchOffset(a) < MarchOffset(b)
  {
  }

  /** Later dates have larger day counts, over all years. */
  lemma DaysAreOrdered(a: Date, b: Date)
    requires ValidDate(a) && ValidDate(b) && Earlier(a, b)
    ensures a.Days() < b.Days()
  {
    hide DaysFromCivil, MarchDays, MarchOffset;
    DaysAreMarchDays(a);
    DaysAreMarchDays(b);
    OffsetFits(a);
    OffsetFits(b);
    if MarchYear(a) == MarchYear(b) {
      OffsetGrows(a, b);
    } else {
      MarchDaysGrow(MarchYear(a), MarchYear(b));
    }
  }

  /** The next day is one further into its year, or the first of the next. */
  lemma NextOffset(t: Date)
    requires ValidDate(t)
    ensures ValidDate(NextDay(t))
    ensures MarchYear(NextDay(t)) == MarchYear(t) ==> MarchOffset(NextDay(t)) == MarchOffset(t) + 1
    ensures MarchYear(NextDay(t)) != MarchYear(t) ==>
              && MarchYear(NextDay(t)) == MarchYear(t) + 1 && MarchOffset(NextDay(t)) == 0
              && MarchOffset(t) + 1 == if IsLeap(MarchYear(t) + 1) then 366 else 365
  {
  }

  /** Exactly one day per successor: across months, leap days, centuries and 400-year eras. */
  lemma NextDayAddsOne(t: Date)
    requires ValidDate(t)
    ensures ValidDate(NextDay(t)) && NextDay(t).Days() == t.Days() + 1
  {
    hide DaysFromCivil, MarchDays, MarchOffset, NextDay, MarchYear;
    NextOffset(t);
    DaysAreMarchDays(t);
    DaysAreMarchDays(NextDay(t));
    MarchYearLength(MarchYear(t));
  }

  lemma {:induction false} AdvanceAddsDays(t: Date, n: nat)
    requires ValidDate(t)
    ensures ValidDate(Advance(t, n)) && Advance(t, n).Days() == t.Days() + n
  {
    if n > 0 {
      AdvanceAddsDays(t, n - 1);
      NextDayAddsOne(Advance(t, n - 1));
    }
  }

  /** The arithmetic is the count of days from 1970-01-01: forwards to later dates, from earlier ones. */
  lemma DaysCountFromEpoch(t: Date)
    requires ValidDate(t)
    ensures t.Days() >= 0 <==> t.y >= 1970
    ensures t.Days() >= 0 ==> Advance(EPOCH, t.Days()) == t
    ensures t.Days() < 0 ==> Advance(t, -t.Days()) == EPOCH
  {
    hide DaysFromCivil, Advance;
    EpochIsDayZero();
    var n := t.Days();
    if Earlier(t, EPOCH) {
      DaysAreOrdered(t, EPOCH);
      AdvanceAddsDays(t, -n);
      SameDaysSameDate(Advance(t, -n), EPOCH);
    } else {
      if t != EPOCH {
        DaysAreOrdered(EPOCH, t);
      }
      AdvanceAddsDays(EPOCH, n);
      SameDaysSameDate(Advance(EPOCH, n), t);
    }
  }

  lemma SameDaysSameDate(a: Date, b: Date)
    requires ValidDate(a) && ValidDate(b) && a.Days() == b.Days()
    ensures a == b
  {
    if Earlier(a, b) {
      DaysAreOrdered(a, b);
    } else if Earlier(b, a) {
      DaysAreOrdered(b, a);
    }
  }

  // ---- timestamps -----------------------------------------------------------------------------------

  /** Two bytes read as decimal digits; the subtraction wraps in a byte. */
  function Parse2(hi: Byte, lo: Byte): int {
    (hi + 0x100 - 48) % 0x100 * 10 + (lo + 0x100 - 48) % 0x100
  }

  function Parse4(ts: seq<Byte>): int
    requires |ts| >= 4
  {
    Parse2(ts[0], ts[1]) * 100 + Parse2(ts[2], ts[3])
  }

  function DateOf(ts: seq<Byte>): Date
    requires |ts| >= 10
  {
    Date(Parse4(ts), Parse2(ts[5], ts[6]), Parse2(ts[8], ts[9]))
  }

  function WeekdayMonday0(ts: seq<Byte>): int
    requires |ts| >= 10
  {
    TruncMod(DateOf(ts).Days() + 3, 7)
  }

  function EpochMinutes(ts: seq<Byte>): int
    requires |ts| >= 16
  {
    DateOf(ts).Days() * 1440 + (Parse2(ts[11], ts[12]) * 60 + Parse2(ts[14], ts[15]))
  }

  /** A minute of the years a four-digit timestamp can name. */
  datatype Moment = Moment(date: Date, hour: int, minute: int)

  predicate ValidMoment(t: Moment) {
    ValidDate(t.date) && 0 <= t.date.y <= 9999 && 0 <= t.hour < 24 && 0 <= t.minute < 60
  }

  predicate EarlierMoment(a: Moment, b: Moment) {
    || Earlier(a.date, b.date)
    || (a.date == b.date && (a.hour < b.hour || (a.hour == b.hour && a.minute < b.minute)))
  }

  function Digits2(x: int): (b: seq<Byte>)
    requires 0 <= x < 100
    ensures |b| == 2
  {
    [48 + x / 10, 48 + x % 10]
  }

  /** The first sixteen bytes of an RFC 3339 timestamp. */
  function Printed(t: Moment): (b: seq<Byte>)
    requires ValidMoment(t)
    ensures |b| == 16
  {
    Digits2(t.date.y / 100) + Digits2(t.date.y % 100) + [45] + Digits2(t.date.m) + [45] + Digits2(t.date.d)
    + [84] + Digits2(t.hour) + [58] + Digits2(t.minute)
  }

  lemma Parse2Digits(x: int)
    requires 0 <= x < 100
    ensures Parse2(Digits2(x)[0], Digits2(x)[1]) == x
  {
  }

  /** Reading back a printed timestamp, whatever follows the minutes. */
  lemma ParsePrinted(t: Moment, rest: seq<Byte>)
    requires ValidMoment(t)
    ensures DateOf(Printed(t) + rest) == t.date
    ensures EpochMinutes(Printed(t) + rest) == t.date.Days() * 1440 + t.hour * 60 + t.minute
  {
    hide DaysFromCivil, Parse2, Digits2;
    Parse2Digits(t.date.y / 100);
    Parse2Digits(t.date.y % 100);
    Parse2Digits(t.date.m);
    Parse2Digits(t.date.d);
    Parse2Digits(t.hour);
    Parse2Digits(t.minute);
  }

  /** Minutes order timestamps exactly as their fields do. */
  lemma EpochMinutesAreOrdered(a: Moment, b: Moment, restA: seq<Byte>, restB: seq<Byte>)
    requires ValidMoment(a) && ValidMoment(b)
    ensures EpochMinutes(Printed(a) + restA) < EpochMinutes(Printed(b) + restB) <==> EarlierMoment(a, b)
  {
    hide DaysFromCivil, Printed, EpochMinutes;
    ParsePrinted(a, restA);
    ParsePrinted(b, restB);
    if Earlier(a.date, b.date) {
      DaysAreOrdered(a.date, b.date);
    } else if Earlier(b.date, a.date) {
      DaysAreOrdered(b.date, a.date);
    }
  }

  /** 2024-02-29T08:07, a Thursday. */
  const LEAP_MORNING: seq<Byte> := [50, 48, 50, 52, 45, 48, 50, 45, 50, 57, 84, 48, 56, 58, 48, 55]

  /** One timestamp through every step, and what a byte that is no digit counts for. */
  lemma LeapMorning(rest: seq<Byte>)
    ensures DateOf(LEAP_MORNING + rest) == Date(2024, 2, 29)
    ensures DateOf(LEAP_MORNING + rest).Days() == 19782
    ensures WeekdayMonday0(LEAP_MORNING + rest) == 3
    ensures EpochMinutes(LEAP_MORNING + rest) == 19782 * 1440 + 8 * 60 + 7
    ensures Parse2(47, 48) == 2550 && Parse2(48, 58) == 10
  {
    var ts := LEAP_MORNING + rest;
    assert forall i :: 0 <= i < 16 ==> ts[i] == LEAP_MORNING[i];
    LeapDay();
  }

  lemma LeapDay()
    ensures Date(2024, 2, 29).Days() == 19782
  {
  }

  /** The weekday of day n, 0 for Monday: 1970-01-01 is a Thursday and each day adds one. */
  function TrueWeekday(n: int): int {
    (n + 3) % 7
  }

  /** Every seventh successor has the same weekday, and the next day the next one. */
  lemma WeekdaysAdvance(t: Date)
    requires ValidDate(t)
    ensures TrueWeekday(EPOCH.Days()) == 3
    ensures TrueWeekday(NextDay(t).Days()) == (TrueWeekday(t.Days()) + 1) % 7
  {
    hide DaysFromCivil;
    NextDayAddsOne(t);
    EpochIsDayZero();
  }

  lemma EpochIsDayZero()
    ensures EPOCH.Days() == 0
  {
  }

  /** The truncated remainder is the weekday from 1969-12-29 on and on earlier Mondays, else 7 too small. */
  lemma WeekdayIsTrueIff(t: Moment, rest: seq<Byte>)
    requires ValidMoment(t)
    ensures var n, w := t.date.Days(), WeekdayMonday0(Printed(t) + rest);
            && (w == TrueWeekday(n) <==> n + 3 >= 0 || (n + 3) % 7 == 0)
            && (w != TrueWeekday(n) ==> w == TrueWeekday(n) - 7)
    ensures t.date.y >= 1970 ==> WeekdayMonday0(Printed(t) + rest) == TrueWeekday(t.date.Days())
  {
    hide DaysFromCivil, Printed, EpochMinutes, DateOf, TruncMod, Advance;
    ParsePrinted(t, rest);
    DaysCountFromEpoch(t.date);
    TruncatedRemainder(t.date.Days() + 3);
  }

  lemma TruncatedRemainder(n: int)
    ensures TruncMod(n, 7) == if n >= 0 || n % 7 == 0 then n % 7 else n % 7 - 7
  {
  }
}

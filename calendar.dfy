/** Gregorian calendar arithmetic on integer timestamps (milliseconds of the
    local wall clock, 0 = 1970-01-01 00:00). A month is identified by its
    (year, month) key, the `yyyy-MM` of the pages. */
module Calendar {

  const DayMs: int := 86_400_000

  /** Days in a 400-year Gregorian cycle. */
  const CycleDays: int := 146_097

  /** Day number of 2000-01-01, the first day of a 400-year cycle. */
  const Y2kDay: int := 10_957

  datatype MonthKey = MonthKey(year: int, month: int)

  predicate ValidMonth(k: MonthKey) {
    1 <= k.month <= 12
  }

  /** A month key that names a real month. */
  type Month = k: MonthKey | ValidMonth(k) witness MonthKey(2000, 1)

  /** Months since January of year 0: orders month keys chronologically. */
  function Index(k: MonthKey): int {
    k.year * 12 + k.month - 1
  }

  function KeyIndex(): MonthKey -> int {
    (k: MonthKey) => Index(k)
  }

  function FromIndex(i: int): (k: MonthKey)
    ensures ValidMonth(k)
    ensures Index(k) == i
  {
    MonthKey(i / 12, i % 12 + 1)
  }

  /** Distinct valid keys have distinct indices, so `Index` is a faithful
      chronological order on month keys. */
  lemma IndexInjective(a: MonthKey, b: MonthKey)
    requires ValidMonth(a) && ValidMonth(b)
    requires Index(a) == Index(b)
    ensures a == b
  {
    assert a == FromIndex(Index(a)) by { FromIndexOfIndex(a); }
    FromIndexOfIndex(b);
  }

  lemma IndexDiffers(a: MonthKey, b: MonthKey)
    requires ValidMonth(a) && ValidMonth(b) && a != b
    ensures Index(a) != Index(b)
  {
    FromIndexOfIndex(a);
    FromIndexOfIndex(b);
  }

  lemma FromIndexOfIndex(k: MonthKey)
    requires ValidMonth(k)
    ensures FromIndex(Index(k)) == k
  {
    var i := Index(k);
    assert i == k.year * 12 + (k.month - 1) && 0 <= k.month - 1 < 12;
    assert i / 12 == k.year && i % 12 == k.month - 1 by {
      DivModUnique(i, k.year, k.month - 1);
    }
  }

  lemma DivModUnique(i: int, q: int, r: int)
    requires 0 <= r < 12 && i == q * 12 + r
    ensures i / 12 == q && i % 12 == r
  {
  }

  /** The month `n` months before `k` (`new Date(y, m - n, 1)`). */
  function MonthsBack(k: MonthKey, n: int): (r: MonthKey)
    ensures ValidMonth(r)
    ensures Index(r) == Index(k) - n
  {
    FromIndex(Index(k) - n)
  }

  /** Gregorian leap years. The rule repeats every 400 years, so it is
      decided by the year's place in its 400-year cycle (see `LeapRule`). */
  function IsLeap(y: int): bool {
    LeapInCycle(y % 400)
  }

  /** Year `r` of a 400-year cycle that starts with a leap century. */
  function LeapInCycle(r: int): bool {
    r % 4 == 0 && (r % 100 != 0 || r == 0)
  }

  function YearLength(y: int): (n: int)
    ensures n == 365 || n == 366
  {
    if IsLeap(y) then 366 else 365
  }


  /** A year (counted from 2000) and a day of that year, from 0. */
  datatype YearDay = YearDay(year: int, day: int)

  /** A month and a day of that month, from 1. */
  datatype MonthDay = MonthDay(month: int, day: int)

  /** Splits the day `doe` of a 400-year cycle starting at 2000 into the
      year offset from `y` and the day of that year. */
  function YearWalk(doe: int, y: int): (r: YearDay)
    requires 0 <= doe
    ensures 0 <= r.day < YearLength(2000 + r.year)
    ensures y <= r.year
    decreases doe
  {
    if doe < YearLength(2000 + y) then YearDay(y, doe)
    else YearWalk(doe - YearLength(2000 + y), y + 1)
  }

  /** The lengths of the twelve months of year `y`, January first. */
  function MonthLengths(y: int): (lens: seq<int>)
    ensures |lens| == 12
  {
    [31, if IsLeap(y) then 29 else 28, 31, 30, 31, 30, 31, 31, 30, 31, 30, 31]
  }

  /** Days in month `m` of year `y`. */
  function MonthLength(y: int, m: int): (n: int)
    requires 1 <= m <= 12
    ensures 28 <= n <= 31
  {
    MonthLengths(y)[m - 1]
  }

  /** Twelve months, each with at least one day. */
  predicate PositiveLengths(lens: seq<int>) {
    |lens| == 12 && forall i :: 0 <= i < 12 ==> lens[i] > 0
  }

  /** Splits a day of a year whose months have lengths `lens` into the month
      (from `m` on) and the day of the month. */
  function MonthWalk(doy: int, lens: seq<int>, m: int): (r: MonthDay)
    requires 0 <= doy && 1 <= m <= 12 && |lens| == 12
    ensures m <= r.month <= 12 && 1 <= r.day
    decreases 12 - m
  {
    if m == 12 || doy < lens[m - 1] then MonthDay(m, doy + 1)
    else MonthWalk(doy - lens[m - 1], lens, m + 1)
  }

  /** The calendar month a timestamp falls in (`format(date, 'yyyy-MM')`):
      its day, counted from 2000-01-01, split into a 400-year cycle and the
      day within it. */
  function MonthOf(t: int): (k: MonthKey)
    ensures ValidMonth(k)
  {
    DayMonth(t / DayMs)
  }

  /** The month of day number `day` (0 = 1970-01-01). */
  function DayMonth(day: int): (k: MonthKey)
    ensures ValidMonth(k)
  {
    var z := day - Y2kDay;
    MonthInCycle(z / CycleDays, z % CycleDays)
  }

  /** The month of day `doe` of the cycle that starts in year 2000 + era * 400. */
  function MonthInCycle(era: int, doe: int): (k: MonthKey)
    requires 0 <= doe
    ensures ValidMonth(k)
  {
    var w := YearWalk(doe, 0);
    MonthOfYearDay(era, w.year, w.day)
  }

  function MonthOfYearDay(era: int, yoff: int, doy: int): (k: MonthKey)
    requires 0 <= doy
    ensures ValidMonth(k)
  {
    // Leap years repeat every 400 years, so year 2000 + yoff has the same length as the year itself.
    MonthKey(2000 + era * 400 + yoff, MonthWalk(doy, MonthLengths(2000 + yoff), 1).month)
  }

  /** Days from 2000-01-01 to January 1st of year 2000 + n, for 0 <= n. */
  function DaysBeforeYear(n: nat): int {
    if n == 0 then 0 else DaysBeforeYear(n - 1) + YearLength(2000 + n - 1)
  }

  /** Days from January 1st to the first of month `m`, in a year whose
      months have lengths `lens`. */
  function DaysBeforeMonth(lens: seq<int>, m: int): int
    requires 1 <= m <= 12 && |lens| == 12
    decreases m
  {
    if m == 1 then 0 else DaysBeforeMonth(lens, m - 1) + lens[m - 2]
  }

  /** Day number (0 = 1970-01-01) of the first day of month `k`. */
  function FirstDay(k: MonthKey): int
    requires ValidMonth(k)
  {
    CycleFirstDay((k.year - 2000) / 400, (k.year - 2000) % 400, k.month)
  }

  /** Day number of the first day of month `m` of year `yoe` of the 400-year
      cycle `era` (the year 2000 + era * 400 + yoe). */
  function CycleFirstDay(era: int, yoe: nat, m: int): int
    requires 1 <= m <= 12
  {
    Y2kDay + era * CycleDays + DaysBeforeYear(yoe) + DaysBeforeMonth(MonthLengths(2000 + yoe), m)
  }

  /** `startOfMonth`: the first millisecond of month `k`. */
  function StartOfMonth(k: MonthKey): int
    requires ValidMonth(k)
  {
    FirstDay(k) * DayMs
  }

  /** `endOfMonth`: the last millisecond of month `k`. */
  function EndOfMonth(k: MonthKey): int
    requires ValidMonth(k)
  {
    StartOfMonth(MonthsBack(k, -1)) - 1
  }
  // ---- MonthOf agrees with StartOfMonth and EndOfMonth ----

  lemma Div4(i: int, q: int, r: int)
    requires 0 <= r < 4 && i == q * 4 + r
    ensures i / 4 == q && i % 4 == r
  {
  }

  lemma Div100(i: int, q: int, r: int)
    requires 0 <= r < 100 && i == q * 100 + r
    ensures i / 100 == q && i % 100 == r
  {
  }

  lemma Div400(i: int, q: int, r: int)
    requires 0 <= r < 400 && i == q * 400 + r
    ensures i / 400 == q && i % 400 == r
  {
  }

  lemma DivCycle(i: int, q: int, r: int)
    requires 0 <= r < CycleDays && i == q * CycleDays + r
    ensures i / CycleDays == q && i % CycleDays == r
  {
  }

  /** The year 2000 + j is a leap year exactly when j is one in the 400-year
      pattern. */
  lemma LeapShift(j: int)
    ensures IsLeap(2000 + j) == (j % 4 == 0 && (j % 100 != 0 || j % 400 == 0))
  {
    Div400(2000 + j, 5 + j / 400, j % 400);
    LeapRule(j);
  }

  /** A year is a leap year when it is divisible by 4, except a century year
      that is not divisible by 400. */
  lemma LeapRule(y: int)
    ensures IsLeap(y) == (y % 4 == 0 && (y % 100 != 0 || y % 400 == 0))
  {
    var q, r := y / 400, y % 400;
    Div4(y, q * 100 + r / 4, r % 4);
    Div100(y, q * 4 + r / 100, r % 100);
  }

  /** How the leap-year counts of the closed form grow from j to j + 1. */
  lemma CountStep(j: int)
    ensures (j + 4) / 4 - (j + 3) / 4 == if j % 4 == 0 then 1 else 0
    ensures (j + 100) / 100 - (j + 99) / 100 == if j % 100 == 0 then 1 else 0
    ensures (j + 400) / 400 - (j + 399) / 400 == if j % 400 == 0 then 1 else 0
  {
    Div4(j + 4, j / 4 + 1, j % 4);
    if j % 4 == 0 { Div4(j + 3, j / 4, 3); } else { Div4(j + 3, j / 4 + 1, j % 4 - 1); }
    Div100(j + 100, j / 100 + 1, j % 100);
    if j % 100 == 0 { Div100(j + 99, j / 100, 99); } else { Div100(j + 99, j / 100 + 1, j % 100 - 1); }
    Div400(j + 400, j / 400 + 1, j % 400);
    if j % 400 == 0 { Div400(j + 399, j / 400, 399); } else { Div400(j + 399, j / 400 + 1, j % 400 - 1); }
  }

  /** Days before year 2000 + n: 365 a year plus one per leap year. */
  lemma {:induction false} DaysBeforeYearClosed(n: nat)
    ensures DaysBeforeYear(n) == 365 * n + (n + 3) / 4 - (n + 99) / 100 + (n + 399) / 400
  {
    if n > 0 {
      var j := n - 1;
      DaysBeforeYearClosed(j);
      assert DaysBeforeYear(n) == DaysBeforeYear(j) + YearLength(2000 + j);
      CountStep(j);
      LeapDays(j);
    }
  }

  /** Year 2000 + j has one extra day per rule of the Gregorian calendar it meets. */
  lemma LeapDays(j: int)
    ensures YearLength(2000 + j) == 365 + (if j % 4 == 0 then 1 else 0) - (if j % 100 == 0 then 1 else 0)
                                        + (if j % 400 == 0 then 1 else 0)
  {
    LeapShift(j);
    if j % 400 == 0 { Div4(j, j / 400 * 100, 0); Div100(j, j / 400 * 4, 0); }
    else if j % 100 == 0 { Div4(j, j / 100 * 25, 0); }
  }

  /** A 400-year cycle has `CycleDays` days. */
  lemma CycleLength()
    ensures DaysBeforeYear(400) == CycleDays
  {
    DaysBeforeYearClosed(400);
  }

  /** Where year 2000 + n lies against the end of the first 400-year cycle. */
  lemma CycleBounds(n: nat)
    ensures n < 400 ==> DaysBeforeYear(n) + YearLength(2000 + n) <= CycleDays
    ensures n == 399 ==> DaysBeforeYear(n) + YearLength(2000 + n) == CycleDays
    ensures n >= 400 ==> DaysBeforeYear(n) >= CycleDays
  {
    CycleLength();
    if n < 399 {
      DaysBeforeYearMono(n, 400);
    } else if n > 400 {
      DaysBeforeYearMono(400, n);
    }
  }

  lemma {:induction false} DaysBeforeYearMono(a: nat, b: nat)
    requires a < b
    ensures DaysBeforeYear(a) + YearLength(2000 + a) <= DaysBeforeYear(b)
    decreases b
  {
    if a < b - 1 {
      DaysBeforeYearMono(a, b - 1);
    }
  }

  /** Days before December: 334, or 335 in a leap year, and December has 31. */
  lemma DaysBeforeDecember(y: int)
    ensures DaysBeforeMonth(MonthLengths(y), 12) + MonthLength(y, 12) == YearLength(y)
  {
    var lens := MonthLengths(y);
    var feb := MonthLength(y, 2);
    assert DaysBeforeMonth(lens, 2) == 31;
    assert DaysBeforeMonth(lens, 3) == 31 + feb;
    assert DaysBeforeMonth(lens, 4) == 62 + feb;
    assert DaysBeforeMonth(lens, 5) == 92 + feb;
    assert DaysBeforeMonth(lens, 6) == 123 + feb;
    assert DaysBeforeMonth(lens, 7) == 153 + feb;
    assert DaysBeforeMonth(lens, 8) == 184 + feb;
    assert DaysBeforeMonth(lens, 9) == 215 + feb;
    assert DaysBeforeMonth(lens, 10) == 245 + feb;
    assert DaysBeforeMonth(lens, 11) == 276 + feb;
    assert DaysBeforeMonth(lens, 12) == 306 + feb;
  }

  lemma LengthsPositive(y: int)
    ensures PositiveLengths(MonthLengths(y))
  {
  }

  lemma {:induction false} DaysBeforeMonthMono(lens: seq<int>, a: int, b: int)
    requires PositiveLengths(lens) && 1 <= a < b <= 12
    ensures DaysBeforeMonth(lens, a) + lens[a - 1] <= DaysBeforeMonth(lens, b)
    decreases b
  {
    if a < b - 1 {
      DaysBeforeMonthMono(lens, a, b - 1);
    }
  }

  /** Month `m` starts on or after January 1st and ends within its year. */
  lemma MonthInYear(y: int, m: int)
    requires 1 <= m <= 12
    ensures 0 <= DaysBeforeMonth(MonthLengths(y), m)
    ensures DaysBeforeMonth(MonthLengths(y), m) + MonthLength(y, m) <= YearLength(y)
  {
    var lens := MonthLengths(y);
    LengthsPositive(y);
    DaysBeforeDecember(y);
    if m < 12 {
      DaysBeforeMonthMono(lens, m, 12);
    }
    if m > 1 {
      DaysBeforeMonthMono(lens, 1, m);
    }
  }

  /** The year walk finds the year a day of the cycle lies in. */
  lemma {:induction false} YearWalkOf(n: nat, y: nat, d: int)
    requires y <= n && 0 <= d < YearLength(2000 + n)
    ensures DaysBeforeYear(n) - DaysBeforeYear(y) + d >= 0
    ensures YearWalk(DaysBeforeYear(n) - DaysBeforeYear(y) + d, y) == YearDay(n, d)
    decreases n - y
  {
    if y < n {
      DaysBeforeYearMono(y, n);
      assert DaysBeforeYear(y + 1) == DaysBeforeYear(y) + YearLength(2000 + y);
      YearWalkOf(n, y + 1, d);
    }
  }

  /** ... and what it returns is a year and a day within it. */
  lemma {:induction false} YearWalkSplits(doe: int, y: nat)
    requires 0 <= doe
    ensures YearWalk(doe, y).year >= 0
    ensures doe == DaysBeforeYear(YearWalk(doe, y).year) - DaysBeforeYear(y) + YearWalk(doe, y).day
    decreases doe
  {
    if doe >= YearLength(2000 + y) {
      assert DaysBeforeYear(y + 1) == DaysBeforeYear(y) + YearLength(2000 + y);
      YearWalkSplits(doe - YearLength(2000 + y), y + 1);
    }
  }

  /** The month walk finds the month a day of the year lies in. */
  lemma {:induction false} MonthWalkOf(lens: seq<int>, m: int, j: int, d: int)
    requires PositiveLengths(lens) && 1 <= j <= m <= 12 && 0 <= d < lens[m - 1]
    ensures DaysBeforeMonth(lens, m) - DaysBeforeMonth(lens, j) + d >= 0
    ensures MonthWalk(DaysBeforeMonth(lens, m) - DaysBeforeMonth(lens, j) + d, lens, j) == MonthDay(m, d + 1)
    decreases m - j
  {
    if j < m {
      var rest := DaysBeforeMonth(lens, m) - DaysBeforeMonth(lens, j + 1) + d;
      MonthWalkOf(lens, m, j + 1, d);
      MonthWalkStep(rest + lens[j - 1], lens, j, rest);
    }
  }

  /** One step of the month walk: past month `j`, the walk goes on from `j + 1`. */
  lemma MonthWalkStep(doy: int, lens: seq<int>, j: int, rest: int)
    requires |lens| == 12 && 1 <= j < 12 && 0 <= rest && 0 <= lens[j - 1] && doy == rest + lens[j - 1]
    ensures MonthWalk(doy, lens, j) == MonthWalk(rest, lens, j + 1)
  {
  }

  /** ... and what it returns is a month and a day within it. */
  lemma {:induction false} MonthWalkSplits(doy: int, lens: seq<int>, j: int)
    requires |lens| == 12 && 1 <= j <= 12 && 0 <= doy && DaysBeforeMonth(lens, j) + doy < DaysBeforeMonth(lens, 12) + lens[11]
    ensures var r := MonthWalk(doy, lens, j);
      && doy == DaysBeforeMonth(lens, r.month) - DaysBeforeMonth(lens, j) + (r.day - 1)
      && r.day - 1 < lens[r.month - 1]
    decreases 12 - j
  {
    if j < 12 && doy >= lens[j - 1] {
      MonthWalkSplits(doy - lens[j - 1], lens, j + 1);
    }
  }

  /** The first day of month `k`, given the cycle and the year within it. */
  lemma FirstDayOf(k: MonthKey, era: int, yoe: int)
    requires ValidMonth(k) && 0 <= yoe < 400 && k.year - 2000 == era * 400 + yoe
    ensures FirstDay(k) == CycleFirstDay(era, yoe, k.month)
  {
    Div400(k.year - 2000, era, yoe);
  }

  /** Leap years repeat every 400 years. */
  lemma LeapPeriodic(era: int, yoe: int)
    requires 0 <= yoe < 400
    ensures IsLeap(2000 + era * 400 + yoe) == IsLeap(2000 + yoe)
  {
    Div400(2000 + era * 400 + yoe, 5 + era, yoe);
    Div400(2000 + yoe, 5, yoe);
  }

  /** The month walk of day `d` of month `m` of year `y`, counted from
      January 1st, finds month `m`. */
  lemma MonthWalkFinds(y: int, m: int, d: int)
    requires 1 <= m <= 12 && 0 <= d < MonthLength(y, m)
    ensures 0 <= DaysBeforeMonth(MonthLengths(y), m) + d < YearLength(y)
    ensures MonthWalk(DaysBeforeMonth(MonthLengths(y), m) + d, MonthLengths(y), 1).month == m
  {
    MonthInYear(y, m);
    LengthsPositive(y);
    MonthWalkOf(MonthLengths(y), m, 1, d);
  }

  /** The year walk of day `doy` of year 2000 + yoe, counted from 2000-01-01,
      finds that year, within the cycle. */
  lemma YearWalkFinds(yoe: int, doy: int)
    requires 0 <= yoe < 400 && 0 <= doy < YearLength(2000 + yoe)
    ensures 0 <= DaysBeforeYear(yoe) + doy < CycleDays
    ensures YearWalk(DaysBeforeYear(yoe) + doy, 0) == YearDay(yoe, doy)
  {
    assert DaysBeforeYear(yoe) + doy < CycleDays by { CycleBounds(yoe); }
    assert YearWalk(DaysBeforeYear(yoe) + doy, 0) == YearDay(yoe, doy) by { YearWalkOf(yoe, 0, doy); }
  }

  /** Month lengths repeat every 400 years. */
  lemma MonthLengthPeriodic(era: int, yoe: int)
    requires 0 <= yoe < 400
    ensures MonthLengths(2000 + era * 400 + yoe) == MonthLengths(2000 + yoe)
  {
    LeapPeriodic(era, yoe);
  }

  /** The month of the cycle day whose walks end in year 2000 + yoe and month `k.month`. */
  lemma MonthInCycleIs(k: MonthKey, era: int, doe: int, yoe: int, doy: int)
    requires ValidMonth(k) && 0 <= doe && 0 <= doy
    requires YearWalk(doe, 0) == YearDay(yoe, doy) && MonthWalk(doy, MonthLengths(2000 + yoe), 1).month == k.month
    requires k.year == 2000 + era * 400 + yoe
    ensures MonthInCycle(era, doe) == k
  {
    MonthInCycleSteps(era, doe, yoe, doy);
  }

  /** Day `d` of month `k`, counted within the 400-year cycle `era`, is a
      day of the cycle whose month is `k`. */
  lemma MonthInCycleOf(k: MonthKey, era: int, yoe: int, d: int)
    requires ValidMonth(k) && 0 <= yoe < 400 && k.year - 2000 == era * 400 + yoe
    requires 0 <= d < MonthLength(k.year, k.month)
    ensures var doe := DaysBeforeYear(yoe) + DaysBeforeMonth(MonthLengths(2000 + yoe), k.month) + d;
      0 <= doe < CycleDays && MonthInCycle(era, doe) == k
  {
    var y := 2000 + yoe;
    var inYear := DaysBeforeMonth(MonthLengths(y), k.month) + d;
    assert 0 <= inYear < YearLength(y) && MonthWalk(inYear, MonthLengths(y), 1).month == k.month by {
      MonthLengthPeriodic(era, yoe);
      MonthWalkFinds(y, k.month, d);
    }
    var doe := DaysBeforeYear(yoe) + inYear;
    assert 0 <= doe < CycleDays && YearWalk(doe, 0) == YearDay(yoe, inYear) by { YearWalkFinds(yoe, inYear); }
    MonthInCycleIs(k, era, doe, yoe, inYear);
  }

  /** A timestamp whose day is a day of month `k` falls in month `k`. */
  lemma MonthOfDay(k: MonthKey, t: int)
    requires ValidMonth(k) && FirstDay(k) <= t / DayMs < FirstDay(k) + MonthLength(k.year, k.month)
    ensures MonthOf(t) == k
  {
    DayMonthOf(k, t / DayMs);
  }

  /** A day of month `k` is given month `k`. */
  lemma DayMonthOf(k: MonthKey, day: int)
    requires ValidMonth(k) && FirstDay(k) <= day < FirstDay(k) + MonthLength(k.year, k.month)
    ensures DayMonth(day) == k
  {
    var era := (k.year - 2000) / 400;
    var yoe := (k.year - 2000) % 400;
    var d := day - FirstDay(k);
    var doe := DaysBeforeYear(yoe) + DaysBeforeMonth(MonthLengths(2000 + yoe), k.month) + d;
    assert day - Y2kDay == era * CycleDays + doe by {
      FirstDayOf(k, era, yoe);
    }
    assert 0 <= doe < CycleDays && MonthInCycle(era, doe) == k by {
      MonthInCycleOf(k, era, yoe, d);
    }
    DayMonthCycle(day, era, doe);
  }

  /** Whole days: `t` lies in days `a .. b - 1` exactly when its day does. */
  lemma DayBounds(t: int, a: int, b: int)
    ensures a * DayMs <= t < b * DayMs <==> a <= t / DayMs < b
  {
    var q, r := t / DayMs, t % DayMs;
    assert t == q * DayMs + r && 0 <= r < DayMs;
    if a <= q {
      assert a * DayMs <= q * DayMs;
    } else {
      assert (a - 1) * DayMs >= q * DayMs;
    }
    if q < b {
      assert (q + 1) * DayMs <= b * DayMs;
    } else {
      assert q * DayMs >= b * DayMs;
    }
  }

  /** `DayMonth` goes through the cycle and the day of the cycle. */
  lemma DayMonthCycle(day: int, era: int, doe: int)
    requires 0 <= doe < CycleDays && day - Y2kDay == era * CycleDays + doe
    ensures DayMonth(day) == MonthInCycle(era, doe)
  {
    DivCycle(day - Y2kDay, era, doe);
  }

  /** `MonthInCycle` goes through the year walk and the month walk. */
  lemma MonthInCycleSteps(era: int, doe: int, yoff: int, doy: int)
    requires 0 <= doe && YearWalk(doe, 0) == YearDay(yoff, doy)
    ensures MonthInCycle(era, doe) == MonthOfYearDay(era, yoff, doy)
  {
  }

  /** The first day of the month after a month that is not December. */
  lemma NextFirstDayInYear(k: MonthKey)
    requires ValidMonth(k) && k.month < 12
    ensures FirstDay(MonthsBack(k, -1)) == FirstDay(k) + MonthLength(k.year, k.month)
  {
    DivModUnique(Index(k) + 1, k.year, k.month);
    var next := MonthKey(k.year, k.month + 1);
    assert MonthsBack(k, -1) == next;
    var era := (k.year - 2000) / 400;
    var yoe := (k.year - 2000) % 400;
    FirstDayOf(k, era, yoe);
    FirstDayOf(next, era, yoe);
    MonthLengthPeriodic(era, yoe);
  }

  /** The first day of January after December of year `k.year`. */
  lemma NextFirstDayNewYear(k: MonthKey)
    requires ValidMonth(k) && k.month == 12
    ensures FirstDay(MonthsBack(k, -1)) == FirstDay(k) + MonthLength(k.year, k.month)
  {
    DivModUnique(Index(k) + 1, k.year + 1, 0);
    var next := MonthKey(k.year + 1, 1);
    assert MonthsBack(k, -1) == next;
    var era := (k.year - 2000) / 400;
    var yoe := (k.year - 2000) % 400;
    FirstDayOf(k, era, yoe);
    DaysBeforeDecember(2000 + yoe);
    assert DaysBeforeYear(yoe + 1) == DaysBeforeYear(yoe) + YearLength(2000 + yoe);
    if yoe < 399 {
      FirstDayOf(next, era, yoe + 1);
    } else {
      FirstDayOf(next, era + 1, 0);
      CycleBounds(yoe);
    }
  }

  lemma NextFirstDay(k: MonthKey)
    requires ValidMonth(k)
    ensures FirstDay(MonthsBack(k, -1)) == FirstDay(k) + MonthLength(k.year, k.month)
  {
    if k.month < 12 {
      NextFirstDayInYear(k);
    } else {
      NextFirstDayNewYear(k);
    }
  }

  /** The year walk of a day of the cycle ends within the cycle. */
  lemma YearWalkInCycle(doe: int)
    requires 0 <= doe < CycleDays
    ensures var w := YearWalk(doe, 0);
      0 <= w.year < 400 && doe == DaysBeforeYear(w.year) + w.day
  {
    var w := YearWalk(doe, 0);
    YearWalkSplits(doe, 0);
    CycleBounds(w.year);
  }

  /** Day `doe` of cycle `era` lies in the month `MonthInCycle` gives it. */
  lemma DayInCycleMonth(era: int, doe: int)
    requires 0 <= doe < CycleDays
    ensures var k := MonthInCycle(era, doe);
      FirstDay(k) <= Y2kDay + era * CycleDays + doe < FirstDay(k) + MonthLength(k.year, k.month)
  {
    var w := YearWalk(doe, 0);
    var lens := MonthLengths(2000 + w.year);
    var r := MonthWalk(w.day, lens, 1);
    CycleDayParts(doe);
    var k := MonthInCycle(era, doe);
    assert k == MonthKey(2000 + era * 400 + w.year, r.month) by {
      MonthInCycleSteps(era, doe, w.year, w.day);
    }
    DayOfMonthInCycle(k, era, w.year, doe);
  }

  /** A day of the cycle that lies inside month `k` of year `yoe` by the
      month lengths of that year lies inside month `k` by its day numbers. */
  lemma DayOfMonthInCycle(k: MonthKey, era: int, yoe: int, doe: int)
    requires ValidMonth(k) && 0 <= yoe < 400 && k.year == 2000 + era * 400 + yoe
    requires var lens := MonthLengths(2000 + yoe);
      0 <= doe - DaysBeforeYear(yoe) - DaysBeforeMonth(lens, k.month) < lens[k.month - 1]
    ensures FirstDay(k) <= Y2kDay + era * CycleDays + doe < FirstDay(k) + MonthLength(k.year, k.month)
  {
    FirstDayOf(k, era, yoe);
    MonthLengthInCycle(k, era, yoe);
  }

  /** Day `doe` of a cycle is a day of the month and year its walks find. */
  lemma CycleDayParts(doe: int)
    requires 0 <= doe < CycleDays
    ensures var w := YearWalk(doe, 0);
      var lens := MonthLengths(2000 + w.year);
      var r := MonthWalk(w.day, lens, 1);
      && 0 <= w.year < 400 && 1 <= r.month <= 12 && 0 <= r.day - 1 < lens[r.month - 1]
      && doe == DaysBeforeYear(w.year) + DaysBeforeMonth(lens, r.month) + (r.day - 1)
  {
    var w := YearWalk(doe, 0);
    assert 0 <= w.year < 400 && doe == DaysBeforeYear(w.year) + w.day by { YearWalkInCycle(doe); }
    DaysBeforeDecember(2000 + w.year);
    MonthWalkSplits(w.day, MonthLengths(2000 + w.year), 1);
  }

  /** Month `k` of cycle `era` is as long as the same month of year 2000 + yoe. */
  lemma MonthLengthInCycle(k: MonthKey, era: int, yoe: int)
    requires ValidMonth(k) && 0 <= yoe < 400 && k.year == 2000 + era * 400 + yoe
    ensures MonthLength(k.year, k.month) == MonthLengths(2000 + yoe)[k.month - 1]
  {
    MonthLengthPeriodic(era, yoe);
  }

  /** The day a timestamp falls on is a day of its own month. */
  lemma DayInOwnMonth(t: int)
    ensures var k := MonthOf(t);
      FirstDay(k) <= t / DayMs < FirstDay(k) + MonthLength(k.year, k.month)
  {
    var z := t / DayMs - Y2kDay;
    DayInCycleMonth(z / CycleDays, z % CycleDays);
  }

  /** A timestamp lies between the first and the last millisecond of its
      own month. */
  lemma WithinOwnMonth(t: int)
    ensures StartOfMonth(MonthOf(t)) <= t <= EndOfMonth(MonthOf(t))
  {
    var k := MonthOf(t);
    DayInOwnMonth(t);
    NextFirstDay(k);
    DayBounds(t, FirstDay(k), FirstDay(k) + MonthLength(k.year, k.month));
  }

  /** `MonthOf` and the month bounds agree: a timestamp falls in month `k`
      exactly when it lies from the first to the last millisecond of `k`. */
  lemma MonthOfBounds(t: int, k: MonthKey)
    requires ValidMonth(k)
    ensures MonthOf(t) == k <==> StartOfMonth(k) <= t <= EndOfMonth(k)
  {
    NextFirstDay(k);
    DayBounds(t, FirstDay(k), FirstDay(k) + MonthLength(k.year, k.month));
    if StartOfMonth(k) <= t <= EndOfMonth(k) {
      MonthOfDay(k, t);
    }
    WithinOwnMonth(t);
  }

  /** A month's first millisecond comes before its last. */
  lemma MonthNonEmpty(k: MonthKey)
    requires ValidMonth(k)
    ensures StartOfMonth(k) <= EndOfMonth(k)
  {
    NextFirstDay(k);
    DayScale(FirstDay(k) + 1, FirstDay(MonthsBack(k, -1)));
  }

  lemma DayScale(a: int, b: int)
    requires a <= b
    ensures a * DayMs <= b * DayMs
  {
  }

  /** Month `b` starts after month `a` ends when it comes later. */
  lemma {:induction false} FirstDayMono(a: MonthKey, b: MonthKey)
    requires ValidMonth(a) && ValidMonth(b) && Index(a) < Index(b)
    ensures FirstDay(a) + MonthLength(a.year, a.month) <= FirstDay(b)
    decreases Index(b) - Index(a)
  {
    var p := FromIndex(Index(b) - 1);
    FromIndexOfIndex(b);
    assert MonthsBack(p, -1) == b;
    NextFirstDay(p);
    if Index(a) == Index(p) {
      IndexInjective(a, p);
    } else {
      FirstDayMono(a, p);
    }
  }

  /** Later months lie wholly after earlier ones. */
  lemma MonthOrder(a: MonthKey, b: MonthKey)
    requires ValidMonth(a) && ValidMonth(b) && Index(a) < Index(b)
    ensures EndOfMonth(a) < StartOfMonth(b)
  {
    FirstDayMono(a, b);
    NextFirstDay(a);
    DayScale(FirstDay(MonthsBack(a, -1)), FirstDay(b));
  }
}

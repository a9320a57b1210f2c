/** The proleptic Gregorian calendar of crates/common/src/numbers.rs: `civil_from_days`
    over every integer day count, against the calendar's own rules. */
module Calendar {

  datatype Date = Date(year: int, month: int, day: int)

  // ---- The calendar ----

  predicate IsLeap(year: int) {
    year % 4 == 0 && (year % 100 != 0 || year % 400 == 0)
  }

  function DaysInMonth(year: int, month: int): int {
    if month == 2 then if IsLeap(year) then 29 else 28
    else if month == 4 || month == 6 || month == 9 || month == 11 then 30
    else 31
  }

  predicate IsDate(c: Date) {
    1 <= c.month <= 12 && 1 <= c.day <= DaysInMonth(c.year, c.month)
  }

  /** The day after c. */
  function NextDay(c: Date): Date {
    if c.day < DaysInMonth(c.year, c.month) then c.(day := c.day + 1)
    else if c.month < 12 then Date(c.year, c.month + 1, 1)
    else Date(c.year + 1, 1, 1)
  }

  predicate Before(a: Date, b: Date) {
    || a.year < b.year
    || (a.year == b.year && a.month < b.month)
    || (a.year == b.year && a.month == b.month && a.day < b.day)
  }

  // ---- The code ----

  const DAYS_PER_ERA := 146_097
  const EPOCH := 719_468

  /** Rust's `/` on i64. */
  function TruncDiv(a: int, b: int): int
    requires b > 0
  {
    if a >= 0 then a / b else -(-a / b)
  }

  function EraOf(z: int): int {
    TruncDiv(if z >= 0 then z else z - 146_096, DAYS_PER_ERA)
  }

  function YearOfEra(doe: int): int {
    (doe - doe / 1460 + doe / 36_524 - doe / 146_096) / 365
  }

  /** The days of an era before its year yoe, years beginning in March. */
  function YearStart(yoe: int): int {
    365 * yoe + yoe / 4 - yoe / 100
  }

  function MonthOf(mp: int): int {
    if mp < 10 then mp + 3 else mp - 9
  }

  function CivilFromDays(days: int): Date {
    var z := days + EPOCH;
    var era := EraOf(z);
    var doe := z - era * DAYS_PER_ERA;
    var yoe := YearOfEra(doe);
    var y := yoe + era * 400;
    var doy := doe - YearStart(yoe);
    var mp := (5 * doy + 2) / 153;
    var d := doy - (153 * mp + 2) / 5 + 1;
    var m := MonthOf(mp);
    Date(if m <= 2 then y + 1 else y, m, d)
  }

  /** Hinnant's days-from-civil, the inverse. */
  function DaysFromCivil(c: Date): int {
    var y := if c.month <= 2 then c.year - 1 else c.year;
    var mp := if c.month > 2 then c.month - 3 else c.month + 9;
    var doy := (153 * mp + 2) / 5 + c.day - 1;
    (y / 400) * DAYS_PER_ERA + YearStart(y % 400) + doy - EPOCH
  }

  lemma DivModUnique(x: int, m: int, q: int, r: int)
    requires m > 0 && x == q * m + r && 0 <= r < m
    ensures x / m == q && x % m == r
  {
    var k := q - x / m;
    assert k >= 1 ==> k * m >= m;
    assert k <= -1 ==> k * m <= -m;
    assert k * m == x % m - r;
  }

  /** The era formula with Rust's division rounds down, on negative days too. */
  lemma EraSplits(era: int, doe: int)
    requires 0 <= doe < DAYS_PER_ERA
    ensures EraOf(era * DAYS_PER_ERA + doe) == era
  {
    var z := era * DAYS_PER_ERA + doe;
    if z >= 0 {
      DivModUnique(z, DAYS_PER_ERA, era, doe);
    } else {
      DivModUnique(-(z - 146_096), DAYS_PER_ERA, -era, 146_096 - doe);
    }
  }

  /** Day t of four-year group f of century c, counted from 1 March of the era's year 0. */
  function GroupDay(c: int, f: int, t: int): int {
    36_524 * c + 1461 * f + t
  }

  ghost predicate InEra(c: int, f: int, t: int) {
    0 <= c <= 3 && 0 <= f <= 24 && 0 <= t <= 1460 && (f == 24 && t == 1460 ==> c == 3)
  }

  function YearOfGroup(t: int): int {
    if t >= 1095 then 3 else t / 365
  }

  lemma CenturyTerm(c: int, f: int, t: int)
    requires InEra(c, f, t)
    ensures var doe := GroupDay(c, f, t); doe / 36_524 - doe / 146_096 == c
  {
    var r := 1461 * f + t;
    assert 0 <= r <= 36_524;
    assert (36_524 * c + r) / 36_524 == c + r / 36_524;
  }

  lemma LeapTerm(c: int, f: int, t: int)
    requires InEra(c, f, t)
    ensures GroupDay(c, f, t) / 1460 == 25 * c + f + if 24 * c + f + t >= 1460 then 1 else 0
  {
    assert GroupDay(c, f, t) == 1460 * (25 * c + f) + (24 * c + f + t);
  }

  lemma YearOfGroupDay(c: int, f: int, t: int)
    requires InEra(c, f, t)
    ensures YearOfEra(GroupDay(c, f, t)) == 100 * c + 4 * f + YearOfGroup(t)
  {
    CenturyTerm(c, f, t);
    LeapTerm(c, f, t);
    var e := if 24 * c + f + t >= 1460 then 1 else 0;
    var doe := GroupDay(c, f, t);
    assert doe - doe / 1460 + doe / 36_524 - doe / 146_096 == 365 * (100 * c + 4 * f) + (t - e);
    assert 0 <= t - e < 1460;
    assert (t - e) / 365 == YearOfGroup(t);
  }

  lemma YearStartOfGroup(c: int, f: int, g: int)
    requires 0 <= c <= 3 && 0 <= f <= 24 && 0 <= g <= 3
    ensures YearStart(100 * c + 4 * f + g) == GroupDay(c, f, 365 * g)
  {
    var y := 100 * c + 4 * f + g;
    assert y / 4 == 25 * c + f;
    assert y / 100 == c;
  }

  /** The year formula finds the year whose days hold doe: its day of year is at most 364,
      or 365 when the February that ends it is a leap one. */
  lemma YearOfEraHolds(doe: int)
    requires 0 <= doe < DAYS_PER_ERA
    ensures var yoe := YearOfEra(doe);
            && 0 <= yoe < 400
            && 0 <= doe - YearStart(yoe) <= (if IsLeap(yoe + 1) then 365 else 364)
  {
    hide YearOfEra;
    hide YearStart;
    var c := if doe >= 109_572 then 3 else doe / 36_524;
    var r := doe - 36_524 * c;
    var f := r / 1461;
    var t := r % 1461;
    YearOfGroupDay(c, f, t);
    var g := YearOfGroup(t);
    YearStartOfGroup(c, f, g);
    if t - 365 * g == 365 {
      LastDayIsLeap(c, f);
    }
  }

  lemma LastDayIsLeap(c: int, f: int)
    requires 0 <= c <= 3 && 0 <= f <= 24 && (f == 24 ==> c == 3)
    ensures IsLeap(100 * c + 4 * f + 4)
  {
  }

  /** The days from 1 March before month mp, and the month's length in a leap year. */
  function MonthStart(mp: int): int {
    (153 * mp + 2) / 5
  }

  function MonthLength(mp: int): int {
    if mp == 11 then 29 else if mp == 1 || mp == 3 || mp == 6 || mp == 8 then 30 else 31
  }

  lemma MonthHolds(doy: int)
    requires 0 <= doy <= 365
    ensures var mp := (5 * doy + 2) / 153;
            0 <= mp <= 11 && 0 <= doy - MonthStart(mp) < MonthLength(mp)
  {
  }

  lemma MonthUnique(mp: int, d: int)
    requires 0 <= mp <= 11 && 0 <= d < MonthLength(mp)
    ensures (5 * (MonthStart(mp) + d) + 2) / 153 == mp
    ensures 0 <= MonthStart(mp) + d <= 365
    ensures MonthStart(mp) + d == 365 ==> mp == 11 && d == 28
  {
  }

  /** A year of the era is found from any of its days. */
  lemma YearOfEraUnique(yoe: int, doy: int)
    requires 0 <= yoe < 400 && 0 <= doy <= (if IsLeap(yoe + 1) then 365 else 364)
    ensures 0 <= YearStart(yoe) + doy < DAYS_PER_ERA
    ensures YearOfEra(YearStart(yoe) + doy) == yoe
  {
    hide *;
    var c, f, g := YearInGroups(yoe);
    GroupedDay(c, f, g, doy);
  }

  lemma YearInGroups(yoe: int) returns (c: int, f: int, g: int)
    requires 0 <= yoe < 400
    ensures yoe == 100 * c + 4 * f + g && 0 <= c <= 3 && 0 <= f <= 24 && 0 <= g <= 3
    ensures IsLeap(yoe + 1) ==> g == 3 && (f == 24 ==> c == 3)
  {
    c, f, g := yoe / 100, yoe % 100 / 4, yoe % 100 % 4;
    assert yoe == 4 * (25 * c + f) + g;
  }

  lemma GroupedDay(c: int, f: int, g: int, doy: int)
    requires 0 <= c <= 3 && 0 <= f <= 24 && 0 <= g <= 3 && 0 <= doy <= 365
    requires doy == 365 ==> g == 3 && (f == 24 ==> c == 3)
    ensures var yoe := 100 * c + 4 * f + g;
            0 <= YearStart(yoe) + doy < DAYS_PER_ERA && YearOfEra(YearStart(yoe) + doy) == yoe
  {
    hide YearStart;
    hide YearOfEra;
    YearStartOfGroup(c, f, g);
    YearOfGroupDay(c, f, 365 * g + doy);
  }

  lemma LeapInEra(y: int, era: int)
    ensures IsLeap(y + era * 400) == IsLeap(y)
  {
    DivModUnique(y + era * 400, 400, y / 400 + era, y % 400);
    DivModUnique(y + era * 400, 100, y / 100 + 4 * era, y % 100);
    DivModUnique(y + era * 400, 4, y / 4 + 100 * era, y % 4);
  }

  // ---- A date as an era, a year of it, a month from March and a day ----

  datatype Parts = Parts(era: int, yoe: int, mp: int, d: int)

  ghost predicate InCalendar(p: Parts) {
    && 0 <= p.yoe < 400 && 0 <= p.mp <= 11 && 0 <= p.d < MonthLength(p.mp)
    && (p.mp == 11 && p.d == 28 ==> IsLeap(p.yoe + 1))
  }

  function DayNumber(p: Parts): int {
    p.era * DAYS_PER_ERA + YearStart(p.yoe) + MonthStart(p.mp) + p.d - EPOCH
  }

  function DateOf(p: Parts): Date {
    var y := p.yoe + p.era * 400;
    Date(if p.mp < 10 then y else y + 1, MonthOf(p.mp), p.d + 1)
  }

  function PartsOf(c: Date): Parts {
    var y := if c.month <= 2 then c.year - 1 else c.year;
    Parts(y / 400, y % 400, if c.month > 2 then c.month - 3 else c.month + 9, c.day - 1)
  }

  lemma CodeOnParts(p: Parts)
    requires InCalendar(p)
    ensures CivilFromDays(DayNumber(p)) == DateOf(p)
  {
    hide YearOfEra;
    hide YearStart;
    hide EraOf;
    MonthUnique(p.mp, p.d);
    var doy := MonthStart(p.mp) + p.d;
    YearOfEraUnique(p.yoe, doy);
    EraSplits(p.era, YearStart(p.yoe) + doy);
  }

  lemma DatesAreParts(c: Date)
    requires IsDate(c)
    ensures InCalendar(PartsOf(c)) && DateOf(PartsOf(c)) == c
    ensures DayNumber(PartsOf(c)) == DaysFromCivil(c)
  {
    var p := PartsOf(c);
    LeapInEra(p.yoe + 1, p.era);
  }

  lemma PartsAreDates(p: Parts)
    requires InCalendar(p)
    ensures IsDate(DateOf(p)) && PartsOf(DateOf(p)) == p
  {
    LeapInEra(p.yoe + 1, p.era);
    DivModUnique(p.yoe + p.era * 400, 400, p.era, p.yoe);
  }

  lemma EveryDayHasParts(days: int) returns (p: Parts)
    ensures InCalendar(p) && DayNumber(p) == days
  {
    hide YearOfEra;
    hide YearStart;
    var z := days + EPOCH;
    var era, doe := z / DAYS_PER_ERA, z % DAYS_PER_ERA;
    YearOfEraHolds(doe);
    var yoe := YearOfEra(doe);
    var doy := doe - YearStart(yoe);
    MonthHolds(doy);
    var mp := (5 * doy + 2) / 153;
    p := Parts(era, yoe, mp, doy - MonthStart(mp));
    assert mp == 11 ==> MonthStart(mp) == 337;
  }

  // ---- The theorems ----

  /** Every day count is a calendar date, and `days_from_civil` finds it again. */
  lemma DaysRoundTrip(days: int)
    ensures IsDate(CivilFromDays(days))
    ensures DaysFromCivil(CivilFromDays(days)) == days
  {
    hide CivilFromDays;
    hide DaysFromCivil;
    hide DayNumber;
    var p := EveryDayHasParts(days);
    CodeOnParts(p);
    PartsAreDates(p);
    DatesAreParts(DateOf(p));
  }

  /** `civil_from_days` undoes `days_from_civil` on every date. */
  lemma DateRoundTrip(c: Date)
    requires IsDate(c)
    ensures CivilFromDays(DaysFromCivil(c)) == c
  {
    DatesAreParts(c);
    CodeOnParts(PartsOf(c));
  }

  lemma LeapYearStep(yoe: int)
    requires 0 <= yoe < 399
    ensures YearStart(yoe + 1) == YearStart(yoe) + if IsLeap(yoe + 1) then 366 else 365
  {
    assert (yoe + 1) / 4 == yoe / 4 + if (yoe + 1) % 4 == 0 then 1 else 0;
    assert (yoe + 1) / 100 == yoe / 100 + if (yoe + 1) % 100 == 0 then 1 else 0;
  }

  lemma YearStartStep(y: int)
    ensures (y + 1) / 400 * DAYS_PER_ERA + YearStart((y + 1) % 400) ==
            y / 400 * DAYS_PER_ERA + YearStart(y % 400) + if IsLeap(y + 1) then 366 else 365
  {
    var era, yoe := y / 400, y % 400;
    LeapInEra(yoe + 1, era);
    if yoe == 399 {
      DivModUnique(y + 1, 400, era + 1, 0);
    } else {
      DivModUnique(y + 1, 400, era, yoe + 1);
      LeapYearStep(yoe);
    }
  }

  lemma NextDayIsDate(c: Date)
    requires IsDate(c)
    ensures IsDate(NextDay(c))
  {
  }

  /** Within the months March to February, the year's start plays no part. */
  lemma NextDayInYear(c: Date)
    requires IsDate(c) && !(c.month == 2 && c.day == DaysInMonth(c.year, 2))
    ensures DaysFromCivil(NextDay(c)) == DaysFromCivil(c) + 1
  {
    hide YearStart;
    hide IsLeap;
  }

  lemma NextDayAfterFebruary(c: Date)
    requires c.month == 2 && c.day == DaysInMonth(c.year, 2)
    ensures DaysFromCivil(NextDay(c)) == DaysFromCivil(c) + 1
  {
    YearStartStep(c.year - 1);
    hide YearStart;
    hide IsLeap;
  }

  lemma NextDayCounts(c: Date)
    requires IsDate(c)
    ensures IsDate(NextDay(c))
    ensures DaysFromCivil(NextDay(c)) == DaysFromCivil(c) + 1
  {
    NextDayIsDate(c);
    hide DaysFromCivil;
    if c.month == 2 && c.day == DaysInMonth(c.year, 2) {
      NextDayAfterFebruary(c);
    } else {
      NextDayInYear(c);
    }
  }

  lemma EpochDay()
    ensures CivilFromDays(0) == Date(1970, 1, 1)
  {
    assert DaysFromCivil(Date(1970, 1, 1)) == 0;
    DateRoundTrip(Date(1970, 1, 1));
  }

  /** Day n+1 is the calendar's day after day n, and day 0 is 1970-01-01: together these
      fix the date of every day. */
  lemma SuccessorDay(days: int)
    ensures CivilFromDays(days + 1) == NextDay(CivilFromDays(days))
    ensures CivilFromDays(0) == Date(1970, 1, 1)
  {
    hide CivilFromDays;
    hide DaysFromCivil;
    var c := CivilFromDays(days);
    DaysRoundTrip(days);
    NextDayCounts(c);
    DateRoundTrip(NextDay(c));
    EpochDay();
  }

  /** Later days are later dates. */
  lemma {:induction false} DaysKeepOrder(a: int, b: int)
    requires a < b
    ensures Before(CivilFromDays(a), CivilFromDays(b))
    decreases b - a
  {
    hide CivilFromDays;
    SuccessorDay(b - 1);
    DaysRoundTrip(b - 1);
    if a < b - 1 {
      DaysKeepOrder(a, b - 1);
    }
  }

  // ---- Machine integers ----

  const I64_MAX := 0x7FFF_FFFF_FFFF_FFFF
  const I64_MIN := -0x8000_0000_0000_0000
  const U64_MAX := 0xFFFF_FFFF_FFFF_FFFF

  predicate FitsI64(x: int) {
    I64_MIN <= x <= I64_MAX
  }

  predicate FitsU64(x: int) {
    0 <= x <= U64_MAX
  }

  function SaturatingAddI64(a: int, b: int): int {
    if a + b > I64_MAX then I64_MAX else if a + b < I64_MIN then I64_MIN else a + b
  }

  /** Whole days since the epoch and seconds into that day, in a zone `offset` seconds
      ahead of UTC. */
  function LocalParts(at: int, offset: int): (int, int) {
    var shifted := SaturatingAddI64(if at > I64_MAX then I64_MAX else at, offset);
    (shifted / 86_400, shifted % 86_400)
  }

  /** Day and second put the shifted time together again exactly when nothing saturates,
      before the epoch too; otherwise they give the clamped time. */
  lemma LocalPartsRecombine(at: int, offset: int)
    requires FitsU64(at) && FitsI64(offset)
    ensures var (day, secs) := LocalParts(at, offset);
            && 0 <= secs < 86_400
            && (day * 86_400 + secs == at + offset <==> at <= I64_MAX && at + offset <= I64_MAX)
            && (at > I64_MAX && offset <= 0 ==> day * 86_400 + secs == I64_MAX + offset)
            && (at + offset > I64_MAX && offset >= 0 ==> day * 86_400 + secs == I64_MAX)
  {
  }

  /** On every day a u64 time and an i32 offset can give, no step of `civil_from_days`
      leaves i64, or u64 from the cast on. */
  lemma NoOverflow(at: int, offset: int)
    requires FitsU64(at) && -0x8000_0000 <= offset <= 0x7FFF_FFFF
    ensures var z := LocalParts(at, offset).0 + EPOCH;
            var era := EraOf(z);
            var doe := z - era * DAYS_PER_ERA;
            var yoe := YearOfEra(doe);
            var doy := doe - YearStart(yoe);
            var mp := (5 * doy + 2) / 153;
            && FitsI64(z) && FitsI64(z - 146_096) && FitsI64(era * DAYS_PER_ERA) && FitsU64(doe)
            && FitsU64(doe - doe / 1460) && FitsU64(doe - doe / 1460 + doe / 36_524)
            && FitsU64(doe - doe / 1460 + doe / 36_524 - doe / 146_096)
            && FitsI64(era * 400) && FitsI64(yoe + era * 400) && FitsI64(yoe + era * 400 + 1)
            && FitsU64(365 * yoe + yoe / 4) && FitsU64(YearStart(yoe)) && FitsU64(doy)
            && FitsU64(5 * doy + 2) && FitsU64(153 * mp + 2) && FitsU64(doy - (153 * mp + 2) / 5)
            && (mp < 10 || FitsU64(mp - 9)) && mp <= 11
  {
    hide YearOfEra;
    hide YearStart;
    hide EraOf;
    EraInRange(at, offset);
    DayOfEraFits((LocalParts(at, offset).0 + EPOCH) % DAYS_PER_ERA);
  }

  lemma EraInRange(at: int, offset: int)
    requires FitsU64(at) && -0x8000_0000 <= offset <= 0x7FFF_FFFF
    ensures var z := LocalParts(at, offset).0 + EPOCH;
            && -25_000 <= z - EPOCH <= 106_751_991_167_301
            && -5 <= EraOf(z) <= 730_700_000 && z - EraOf(z) * DAYS_PER_ERA == z % DAYS_PER_ERA
  {
    hide EraOf;
    var z := LocalParts(at, offset).0 + EPOCH;
    assert -25_000 <= z - EPOCH <= 106_751_991_167_301;
    EraSplits(z / DAYS_PER_ERA, z % DAYS_PER_ERA);
  }

  lemma DayOfEraFits(doe: int)
    requires 0 <= doe < DAYS_PER_ERA
    ensures var yoe := YearOfEra(doe);
            var doy := doe - YearStart(yoe);
            var mp := (5 * doy + 2) / 153;
            && 0 <= doe - doe / 1460 && 0 <= doe - doe / 1460 + doe / 36_524 - doe / 146_096 < 2 * DAYS_PER_ERA
            && 0 <= yoe < 400 && 0 <= YearStart(yoe) && 0 <= doy <= 365
            && 0 <= mp <= 11 && 0 <= doy - (153 * mp + 2) / 5
  {
    YearOfEraHolds(doe);
    hide YearOfEra;
    hide IsLeap;
    MonthHolds(doe - YearStart(YearOfEra(doe)));
  }
}

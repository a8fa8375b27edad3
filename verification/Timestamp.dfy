/** Days since 1970-01-01 as proleptic Gregorian dates, and UTC seconds as
  * RFC 3339 timestamps.
  */
module Timestamp {

  datatype Date = Date(year: int, month: nat, day: nat)

  // ------------------------------------------------------------ the calendar

  /** The Gregorian rule. */
  predicate Leap(year: int) { year % 4 == 0 && (year % 100 != 0 || year % 400 == 0) }

  function MonthLength(year: int, month: nat): nat {
    if month == 2 then if Leap(year) then 29 else 28
    else if month == 4 || month == 6 || month == 9 || month == 11 then 30
    else 31
  }

  predicate ValidDate(d: Date) { 1 <= d.month <= 12 && 1 <= d.day <= MonthLength(d.year, d.month) }

  /** The day after. */
  function Successor(d: Date): Date {
    if d.day < MonthLength(d.year, d.month) then d.(day := d.day + 1)
    else if d.month < 12 then Date(d.year, d.month + 1, 1)
    else Date(d.year + 1, 1, 1)
  }

  // ------------------------------------------------------------- the algorithm

  /** Year of a 400-year era, from its day. */
  function YearOfEra(doe: nat): int {
    (doe - doe / 1460 + doe / 36524 - doe / 146096) / 365
  }

  /** First day of a year of an era; years start in March. */
  function YearStart(yoe: int): int { 365 * yoe + yoe / 4 - yoe / 100 }

  function MonthPrime(doy: int): int { (5 * doy + 2) / 153 }

  function CivilFromDays(daysSinceEpoch: int): Date {
    var z := daysSinceEpoch + 719468;
    var era := z / 146097;
    var doe := z % 146097;
    EraFacts(doe);
    var yoe := YearOfEra(doe);
    var year := yoe + era * 400;
    var doy := doe - YearStart(yoe);
    DateInMarchYear(year, doy)
  }

  /** The end of the algorithm: month and day of a day of a March-based year. */
  function DateInMarchYear(year: int, doy: int): Date
    requires 0 <= doy <= 365
  {
    var mp := MonthPrime(doy);
    var day := doy - (153 * mp + 2) / 5 + 1;
    var month := if mp < 10 then mp + 3 else mp - 9;
    Date(if month <= 2 then year + 1 else year, month, day)
  }

  /** March-based month lengths. */
  function MarchMonthStart(mp: int): int { (153 * mp + 2) / 5 }

  /** The year estimate is exact: the day lies in the year it names. */
  lemma EraFacts(doe: nat)
    requires doe < 146097
    ensures var y := YearOfEra(doe);
            && 0 <= y <= 399
            && YearStart(y) <= doe
            && (y < 399 ==> doe < YearStart(y + 1))
            && doe - YearStart(y) <= 365
  {
    var c := if doe >= 3 * 36524 then 3 else doe / 36524;
    var r := doe - 36524 * c;
    var q, r4 := r / 1461, r % 1461;
    hide YearOfEra, YearStart;
    YearFromParts(doe, c, q, r4);
  }

  function QuarterYear(r4: int): int { if r4 >= 1095 then 3 else if r4 >= 730 then 2 else if r4 >= 365 then 1 else 0 }

  /** Centuries, four-year cycles and years of a day of the era. */
  lemma YearFromParts(doe: nat, c: int, q: int, r4: int)
    requires doe == 36524 * c + 1461 * q + r4 && 0 <= c <= 3 && 0 <= q <= 24 && 0 <= r4 <= 1460
    requires 1461 * q + r4 <= if c == 3 then 36524 else 36523
    ensures YearOfEra(doe) == 100 * c + 4 * q + QuarterYear(r4)
    ensures YearStart(YearOfEra(doe)) == 36524 * c + 1461 * q + 365 * QuarterYear(r4)
    ensures YearStart(YearOfEra(doe) + 1) == 36524 * c + 1461 * q + 365 * (QuarterYear(r4) + 1)
            + (if QuarterYear(r4) == 3 then 1 else 0)
                                             - (if q == 24 && QuarterYear(r4) == 3 then 1 else 0)
  {
    var e := if 24 * c + q + r4 >= 1460 then 1 else 0;
    EraQuotients(doe, c, q, r4);
    YearsOfDays(100 * c + 4 * q, r4 - e);
    StartOfYear(c, q, QuarterYear(r4));
    StartOfYear(c, q, QuarterYear(r4) + 1);
  }

  /** Days that make up whole years, and some more. */
  lemma YearsOfDays(years: nat, days: int)
    requires 0 <= days <= 1460
    ensures (365 * years + days) / 365 == years + days / 365
  {}

  lemma EraQuotients(doe: nat, c: int, q: int, r4: int)
    requires doe == 36524 * c + 1461 * q + r4 && 0 <= c <= 3 && 0 <= q <= 24 && 0 <= r4 <= 1460
    requires 1461 * q + r4 <= if c == 3 then 36524 else 36523
    ensures doe / 1460 == 25 * c + q + if 24 * c + q + r4 >= 1460 then 1 else 0
    ensures doe / 146096 == (if doe == 146096 then 1 else 0) && doe / 36524 == c + doe / 146096
  {}

  lemma StartOfYear(c: int, q: int, k: int)
    requires 0 <= c <= 3 && 0 <= q <= 24 && 0 <= k <= 4
    ensures YearStart(100 * c + 4 * q + k)
         == 36524 * c + 1461 * q + 365 * k + (if k == 4 then 1 else 0) - (if q == 24 && k == 4 then 1 else 0)
  {}

  // --------------------------------------------- the algorithm is the calendar

  /** Day number, from the algorithm's origin, of the first of March. */
  function MarchFirst(year: int): int { 365 * year + year / 4 - year / 100 + year / 400 }

  /** A March-based year ends with the February of the next calendar year. */
  lemma MarchYearLength(year: int)
    ensures MarchFirst(year + 1) == MarchFirst(year) + 365 + if Leap(year + 1) then 1 else 0
  {
    Steps(year, 4);
    Steps(year, 100);
    Steps(year, 400);
  }

  lemma Steps(n: int, m: int)
    requires m in {4, 100, 400}
    ensures (n + 1) / m == n / m + if (n + 1) % m == 0 then 1 else 0
  {}

  lemma {:induction false} MarchFirstMonotone(a: int, b: int)
    requires a <= b
    ensures MarchFirst(a) <= MarchFirst(b)
    decreases b - a
  {
    hide MarchFirst;
    if a < b {
      MarchFirstMonotone(a, b - 1);
      MarchYearLength(b - 1);
    }
  }

  /** What the algorithm does: it finds the March-based year the day is in. */
  lemma CivilFindsMarchYear(d: int, year: int)
    requires MarchFirst(year) <= d + 719468 < MarchFirst(year + 1)
    ensures d + 719468 - MarchFirst(year) <= 365
    ensures CivilFromDays(d) == DateInMarchYear(year, d + 719468 - MarchFirst(year))
  {
    hide DateInMarchYear, YearOfEra, MarchFirst;
    MarchYearLength(year);
    var z := d + 719468;
    var era, doe := z / 146097, z % 146097;
    EraFacts(doe);
    EraDay(z, era, doe, YearOfEra(doe));
    OneMarchYear(z, YearOfEra(doe) + era * 400, year);
    EraOrigin(era, YearOfEra(doe));
  }

  lemma OneMarchYear(z: int, found: int, year: int)
    requires MarchFirst(year) <= z < MarchFirst(year + 1) && MarchFirst(found) <= z < MarchFirst(found + 1)
    ensures found == year
  {
    hide MarchFirst;
    if found < year { MarchFirstMonotone(found + 1, year); }
    if year < found { MarchFirstMonotone(year + 1, found); }
  }

  lemma EraDay(z: int, era: int, doe: int, yoe: int)
    requires z == 146097 * era + doe && 0 <= yoe < 400
    requires YearStart(yoe) <= doe < 146097 && (yoe < 399 ==> doe < YearStart(yoe + 1))
    ensures MarchFirst(yoe + era * 400) <= z < MarchFirst(yoe + era * 400 + 1)
  {
    assert YearStart(400) == 146096;
    hide MarchFirst, YearStart;
    EraOrigin(era, yoe);
    EraOrigin(era, yoe + 1);
    assert yoe + 1 + era * 400 == yoe + era * 400 + 1;
  }

  lemma EraOrigin(era: int, y: int)
    requires 0 <= y <= 400
    ensures MarchFirst(y + era * 400) == 146097 * era + YearStart(y) + if y == 400 then 1 else 0
  {
    var n := y + era * 400;
    assert n / 4 == y / 4 + 100 * era;
    assert n / 100 == y / 100 + 4 * era;
    assert n / 400 == era + if y == 400 then 1 else 0;
  }

  /** Every day lies in some March-based year. */
  lemma MarchYearExists(d: int) returns (year: int)
    ensures MarchFirst(year) <= d + 719468 < MarchFirst(year + 1)
  {
    hide YearOfEra;
    var z := d + 719468;
    var era, doe := z / 146097, z % 146097;
    EraFacts(doe);
    var yoe := YearOfEra(doe);
    EraOrigin(era, yoe);
    EraOrigin(era, yoe + 1);
    hide MarchFirst, YearStart;
    year := yoe + era * 400;
  }

  /** Within a March-based year the next day is the calendar successor. */
  lemma SuccessorInYear(year: int, doy: int)
    requires 0 <= doy < if Leap(year + 1) then 365 else 364
    ensures DateInMarchYear(year, doy + 1) == Successor(DateInMarchYear(year, doy))
  {
    var mp := MonthPrime(doy);
    MonthFits(year, mp);
    hide Leap, MonthPrime;
    assert MonthPrime(doy + 1) == if doy + 1 < MarchMonthStart(mp + 1) || mp == 11 then mp else mp + 1 by {
    }
  }

  function MonthOf(mp: int): nat
    requires 0 <= mp <= 11
  {
    if mp < 10 then mp + 3 else mp - 9
  }

  lemma MonthFits(year: int, mp: int)
    requires 0 <= mp <= 11
    ensures mp < 11 ==>
              MarchMonthStart(mp + 1) - MarchMonthStart(mp)
              == MonthLength(if MonthOf(mp) <= 2 then year + 1 else year, MonthOf(mp))
    ensures mp == 11 ==> MarchMonthStart(mp) == 337 && MonthLength(year + 1, 2) == if Leap(year + 1) then 29 else 28
  {
    hide Leap;
  }

  /** The last day of February is followed by the first of March. */
  lemma SuccessorAcrossYears(year: int, doy: int)
    requires doy == if Leap(year + 1) then 365 else 364
    ensures Successor(DateInMarchYear(year, doy)) == DateInMarchYear(year + 1, 0)
  {
    hide Leap;
  }

  /** Day 0 is 1970-01-01. */
  lemma Epoch()
    ensures CivilFromDays(0) == Date(1970, 1, 1)
  {
    assert DateInMarchYear(1969, 306) == Date(1970, 1, 1);
    assert YearOfEra(135080) == 369 && YearStart(369) == 134774;
    hide YearOfEra, YearStart, DateInMarchYear;
  }

  /** Day d + 1 is the calendar successor of day d, for every integer d. */
  lemma NextDay(d: int)
    ensures CivilFromDays(d + 1) == Successor(CivilFromDays(d))
  {
    hide MarchFirst, Successor, DateInMarchYear, CivilFromDays, Leap;
    var year := MarchYearExists(d);
    CivilFindsMarchYear(d, year);
    MarchYearLength(year);
    var doy := d + 719468 - MarchFirst(year);
    if d + 1 + 719468 < MarchFirst(year + 1) {
      CivilFindsMarchYear(d + 1, year);
      SuccessorInYear(year, doy);
    } else {
      MarchYearLength(year + 1);
      CivilFindsMarchYear(d + 1, year + 1);
      SuccessorAcrossYears(year, doy);
    }
  }

  // ----------------------------------------------------------------- bijection

  lemma AlwaysValid(d: int)
    ensures ValidDate(CivilFromDays(d))
  {
    hide MarchFirst, DateInMarchYear, CivilFromDays, Leap, ValidDate;
    var year := MarchYearExists(d);
    CivilFindsMarchYear(d, year);
    MarchYearLength(year);
    ValidInYear(year, d + 719468 - MarchFirst(year));
  }

  lemma ValidInYear(year: int, doy: int)
    requires 0 <= doy < 365 + if Leap(year + 1) then 1 else 0
    ensures ValidDate(DateInMarchYear(year, doy))
  {
    hide Leap;
    MonthFits(year, MonthPrime(doy));
  }

  /** Chronological order of dates. */
  predicate Before(a: Date, b: Date) {
    a.year < b.year || (a.year == b.year && (a.month < b.month || (a.month == b.month && a.day < b.day)))
  }

  lemma {:induction false} LaterDayLaterDate(d: int, e: int)
    requires d < e
    ensures Before(CivilFromDays(d), CivilFromDays(e))
    decreases e - d
  {
    hide CivilFromDays;
    AlwaysValid(e - 1);
    NextDay(e - 1);
    if d < e - 1 { LaterDayLaterDate(d, e - 1); }
  }

  /** The day number of a date. */
  function DaysFromCivil(d: Date): int
    requires ValidDate(d)
  {
    var year := if d.month <= 2 then d.year - 1 else d.year;
    var mp := if d.month <= 2 then d.month + 9 else d.month - 3;
    MarchFirst(year) + MarchMonthStart(mp) + d.day - 1 - 719468
  }

  /** The algorithm is a bijection from the integers onto the valid dates. */
  lemma Bijection(date: Date, d: int)
    requires ValidDate(date)
    ensures CivilFromDays(d) == date <==> d == DaysFromCivil(date)
  {
    hide MarchFirst, DateInMarchYear, CivilFromDays, Leap, MonthLength, MarchMonthStart;
    var year := if date.month <= 2 then date.year - 1 else date.year;
    var mp := if date.month <= 2 then date.month + 9 else date.month - 3;
    var doy := MarchMonthStart(mp) + date.day - 1;
    MarchYearLength(year);
    DayOfYearBack(year, mp, date);
    var e := DaysFromCivil(date);
    CivilFindsMarchYear(e, year);
    if d < e { LaterDayLaterDate(d, e); } else if e < d { LaterDayLaterDate(e, d); }
  }

  lemma DayOfYearBack(year: int, mp: int, date: Date)
    requires ValidDate(date) && 0 <= mp <= 11
    requires date.month == MonthOf(mp) && date.year == if mp >= 10 then year + 1 else year
    ensures 0 <= MarchMonthStart(mp) + date.day - 1 < 365 + if Leap(year + 1) then 1 else 0
    ensures DateInMarchYear(year, MarchMonthStart(mp) + date.day - 1) == date
  {
    hide Leap;
    MonthFits(year, mp);
  }

  // ------------------------------------------------------------------- strings

  function Digit(v: nat): char
    requires v < 10
  {
    '0' + v as char
  }

  function Pow10(w: nat): (r: nat)
    ensures r >= 1
  {
    if w == 0 then 1 else 10 * Pow10(w - 1)
  }

  /** `v` in exactly `w` decimal digits. */
  function Padded(v: nat, w: nat): (s: string)
    ensures |s| == w
  {
    if w == 0 then "" else Padded(v / 10, w - 1) + [Digit(v % 10)]
  }

  function Decimal(v: nat): string {
    if v < 10 then [Digit(v)] else Decimal(v / 10) + [Digit(v % 10)]
  }

  /** `{v:0w}`: zero-padded, sign included in the width, never truncated. */
  function Format(v: int, w: nat): string
    requires w > 0
  {
    if 0 <= v < Pow10(w) then Padded(v, w)
    else if v >= 0 then Decimal(v)
    else if -v < Pow10(w - 1) then "-" + Padded(-v, w - 1)
    else "-" + Decimal(-v)
  }

  function DatePart(d: Date): string { Format(d.year, 4) + "-" + Format(d.month, 2) + "-" + Format(d.day, 2) }

  function TimePart(secsOfDay: nat): string {
    Format(secsOfDay / 3600, 2) + ":" + Format(secsOfDay % 3600 / 60, 2) + ":" + Format(secsOfDay % 60, 2)
  }

  function UnixToIso8601Utc(unixSecs: int): string {
    DatePart(CivilFromDays(unixSecs / 86400)) + "T" + TimePart(unixSecs % 86400) + "Z"
  }

  /** Order of two strings of one length. */
  ghost predicate StringLess(a: string, b: string)
    requires |a| == |b|
  {
    exists k :: 0 <= k < |a| && a[..k] == b[..k] && a[k] < b[k]
  }

  lemma {:induction false} PaddedOrder(v: nat, u: nat, w: nat)
    requires v < u < Pow10(w)
    ensures StringLess(Padded(v, w), Padded(u, w))
  {
    var p, q := Padded(v, w), Padded(u, w);
    assert p[..w - 1] == Padded(v / 10, w - 1) && q[..w - 1] == Padded(u / 10, w - 1);
    if v / 10 == u / 10 {
      assert p[w - 1] < q[w - 1];
    } else {
      PaddedOrder(v / 10, u / 10, w - 1);
      LessAppend(p[..w - 1], [p[w - 1]], q[..w - 1], [q[w - 1]]);
      assert p == p[..w - 1] + [p[w - 1]] && q == q[..w - 1] + [q[w - 1]];
    }
  }

  lemma LessAppend(a: string, x: string, b: string, y: string)
    requires |a| == |b| && |x| == |y|
    requires StringLess(a, b) || (a == b && StringLess(x, y))
    ensures StringLess(a + x, b + y)
  {
    if StringLess(a, b) {
      var k :| 0 <= k < |a| && a[..k] == b[..k] && a[k] < b[k];
      assert (a + x)[..k] == a[..k] && (b + y)[..k] == b[..k];
    } else {
      var k :| 0 <= k < |x| && x[..k] == y[..k] && x[k] < y[k];
      assert (a + x)[..|a| + k] == a + x[..k] && (b + y)[..|a| + k] == b + y[..k];
    }
  }

  /** Three fixed-width fields with a separator compare like their numbers. */
  function Fields(a: nat, w: nat, b: nat, c: nat, sep: string): string {
    Padded(a, w) + (sep + (Padded(b, 2) + (sep + Padded(c, 2))))
  }

  lemma FieldsOrder(a: nat, b: nat, c: nat, a': nat, b': nat, c': nat, w: nat, sep: string)
    requires a < Pow10(w) && a' < Pow10(w) && b < 100 && b' < 100 && c < 100 && c' < 100
    requires a < a' || (a == a' && (b < b' || (b == b' && c < c')))
    ensures StringLess(Fields(a, w, b, c, sep), Fields(a', w, b', c', sep))
  {
    hide StringLess, Padded;
    assert Pow10(2) == 100;
    var x, x' := sep + Padded(c, 2), sep + Padded(c', 2);
    var y, y' := sep + (Padded(b, 2) + x), sep + (Padded(b', 2) + x');
    if a < a' {
      PaddedOrder(a, a', w);
    } else {
      if b < b' {
        PaddedOrder(b, b', 2);
      } else {
        PaddedOrder(c, c', 2);
        LessAppend(sep, Padded(c, 2), sep, Padded(c', 2));
      }
      LessAppend(Padded(b, 2), x, Padded(b', 2), x');
      LessAppend(sep, Padded(b, 2) + x, sep, Padded(b', 2) + x');
    }
    LessAppend(Padded(a, w), y, Padded(a', w), y');
  }

  lemma DatePartFields(d: Date)
    requires ValidDate(d) && 0 <= d.year <= 9999
    ensures DatePart(d) == Fields(d.year, 4, d.month, d.day, "-")
  {
    hide Padded, Decimal;
    assert Pow10(2) == 100 && Pow10(4) == 10000;
    assert d.day <= 31;
  }

  lemma TimePartFields(s: nat)
    requires s < 86400
    ensures s / 3600 < 24 && s % 3600 / 60 < 60
    ensures TimePart(s) == Fields(s / 3600, 2, s % 3600 / 60, s % 60, ":")
  {
    hide Padded, Decimal;
    assert Pow10(2) == 100;
  }

  lemma TimeOrder(s: nat, t: nat)
    requires s < t < 86400
    ensures StringLess(Fields(s / 3600, 2, s % 3600 / 60, s % 60, ":"), Fields(t / 3600, 2, t % 3600 / 60, t % 60, ":"))
  {
    hide Fields, StringLess;
    assert Pow10(2) == 100;
    FieldsOrder(s / 3600, s % 3600 / 60, s % 60, t / 3600, t % 3600 / 60, t % 60, 2, ":");
  }

  predicate FourDigitYear(unixSecs: int) { 0 <= CivilFromDays(unixSecs / 86400).year <= 9999 }

  /** In years 0 to 9999 a later second is a greater string. */
  lemma TimestampsSortChronologically(s: int, t: int)
    requires s < t && FourDigitYear(s) && FourDigitYear(t)
    ensures |UnixToIso8601Utc(s)| == |UnixToIso8601Utc(t)|
    ensures StringLess(UnixToIso8601Utc(s), UnixToIso8601Utc(t))
  {
    hide StringLess, Fields, CivilFromDays, DatePart, TimePart, ValidDate;
    var d, e := s / 86400, t / 86400;
    var x, y := CivilFromDays(d), CivilFromDays(e);
    AlwaysValid(d);
    AlwaysValid(e);
    DatePartFields(x);
    DatePartFields(y);
    TimePartFields(s % 86400);
    TimePartFields(t % 86400);
    FieldsLength(x, y);
    FieldsLengthTime(s % 86400, t % 86400);
    var p, q := "T" + (TimePart(s % 86400) + "Z"), "T" + (TimePart(t % 86400) + "Z");
    assert UnixToIso8601Utc(s) == DatePart(x) + p && UnixToIso8601Utc(t) == DatePart(y) + q;
    if d < e {
      LaterDayLaterDate(d, e);
      DateOrder(x, y);
    } else {
      assert d == e && s % 86400 < t % 86400;
      TimeOrder(s % 86400, t % 86400);
      LessAppend(TimePart(s % 86400), "Z", TimePart(t % 86400), "Z");
      LessAppend("T", TimePart(s % 86400) + "Z", "T", TimePart(t % 86400) + "Z");
    }
    LessAppend(DatePart(x), p, DatePart(y), q);
  }

  lemma FieldsLength(x: Date, y: Date)
    requires 0 <= x.year && 0 <= y.year
    ensures |Fields(x.year, 4, x.month, x.day, "-")| == |Fields(y.year, 4, y.month, y.day, "-")| == 10
  {}

  lemma FieldsLengthTime(s: nat, t: nat)
    ensures |Fields(s / 3600, 2, s % 3600 / 60, s % 60, ":")| == |Fields(t / 3600, 2, t % 3600 / 60, t % 60, ":")| == 8
  {}

  lemma DateOrder(x: Date, y: Date)
    requires ValidDate(x) && ValidDate(y) && Before(x, y) && 0 <= x.year <= 9999 && 0 <= y.year <= 9999
    ensures StringLess(Fields(x.year, 4, x.month, x.day, "-"), Fields(y.year, 4, y.month, y.day, "-"))
  {
    hide Fields, StringLess;
    assert Pow10(4) == 10000;
    FieldsOrder(x.year, x.month, x.day, y.year, y.month, y.day, 4, "-");
  }

  // ------------------------------------------------------- reading a timestamp back

  /** The number a string of decimal digits stands for. */
  function NumberOf(s: string): int {
    if s == "" then 0 else 10 * NumberOf(s[..|s| - 1]) + (s[|s| - 1] as int - '0' as int)
  }

  predicate AllDigits(s: string) { forall i :: 0 <= i < |s| ==> '0' <= s[i] <= '9' }

  lemma {:induction false} PaddedReads(v: nat, w: nat)
    requires v < Pow10(w)
    ensures NumberOf(Padded(v, w)) == v && AllDigits(Padded(v, w))
  {
    if w > 0 {
      PaddedReads(v / 10, w - 1);
      assert Padded(v, w)[..w - 1] == Padded(v / 10, w - 1);
    }
  }

  predicate Reads(s: string, n: int) { NumberOf(s) == n && AllDigits(s) }

  lemma MinuteOfHour(t: nat)
    requires t < 86400
    ensures t % 3600 / 60 == t / 60 % 60 < 60 && t / 3600 < 100 && 100 == Pow10(2)
  {
    assert Pow10(2) == 100;
  }

  lemma {:induction false} DecimalReads(v: nat)
    ensures Reads(Decimal(v), v) && Decimal(v) != "" && (v > 0 ==> Decimal(v)[0] != '0')
    ensures forall w: nat :: Pow10(w) <= v ==> |Decimal(v)| > w
  {
    if v >= 10 {
      DecimalReads(v / 10);
      assert Decimal(v)[..|Decimal(v)| - 1] == Decimal(v / 10);
      forall w: nat | Pow10(w) <= v ensures |Decimal(v)| > w {
        if w > 0 { assert Pow10(w - 1) <= v / 10; }
      }
    } else {
      assert NumberOf(Decimal(v)[..0]) == 0;
      assert forall w: nat :: w > 0 ==> Pow10(w) >= 10;
    }
  }

  /** A year takes at least four characters, its sign among them, and has a leading
    * zero only where it would take fewer. */
  predicate YearText(s: string, year: int) {
    |s| >= 4 && (year < 0 ==> s[0] == '-')
    && var digits := if year < 0 then s[1..] else s;
       Reads(digits, if year < 0 then -year else year) && (|s| > 4 ==> digits[0] != '0')
  }

  lemma YearReads(year: int)
    ensures YearText(Format(year, 4), year)
  {
    assert Pow10(3) == 1000 && Pow10(4) == 10000 by { assert Pow10(2) == 100; }
    var v := if year < 0 then -year else year;
    DecimalReads(v);
    if 0 <= year < 10000 { PaddedReads(v, 4); }
    if -1000 < year < 0 { PaddedReads(v, 3); }
    hide Padded, Decimal, NumberOf, AllDigits, Pow10;
  }

  /** The fields of a timestamp of any year, between their separators. */
  lemma TimestampReads(unixSecs: int) returns (year: string, f: seq<string>)
    ensures |f| == 5 && UnixToIso8601Utc(unixSecs)
                        == year + "-" + f[0] + "-" + f[1] + "T" + f[2] + ":" + f[3] + ":" + f[4] + "Z"
    ensures var d, t := CivilFromDays(unixSecs / 86400), unixSecs % 86400;
            && YearText(year, d.year) && (forall i :: 0 <= i < 5 ==> |f[i]| == 2)
            && Reads(f[0], d.month) && Reads(f[1], d.day)
            && Reads(f[2], t / 3600) && Reads(f[3], t / 60 % 60) && Reads(f[4], t % 60)
  {
    hide CivilFromDays, ValidDate, Format, Reads, YearText, UnixToIso8601Utc;
    var d, t := CivilFromDays(unixSecs / 86400), unixSecs % 86400;
    AlwaysValid(unixSecs / 86400);
    MonthAndDay(d);
    MinuteOfHour(t);
    YearReads(d.year);
    year := Format(d.year, 4);
    f := [Format(d.month, 2), Format(d.day, 2), Format(t / 3600, 2), Format(t / 60 % 60, 2), Format(t % 60, 2)];
    TwoDigits(d.month);
    TwoDigits(d.day);
    TwoDigits(t / 3600);
    TwoDigits(t / 60 % 60);
    TwoDigits(t % 60);
    StampIs(unixSecs);
  }

  lemma StampIs(unixSecs: int)
    ensures var d, t := CivilFromDays(unixSecs / 86400), unixSecs % 86400;
            UnixToIso8601Utc(unixSecs)
            == Format(d.year, 4) + "-" + Format(d.month, 2) + "-" + Format(d.day, 2) + "T" + Format(t / 3600, 2) + ":"
               + Format(t % 3600 / 60, 2) + ":" + Format(t % 60, 2) + "Z"
  {
    hide CivilFromDays, Format;
  }

  lemma MonthAndDay(d: Date)
    requires ValidDate(d)
    ensures 0 <= d.month < 100 && 0 <= d.day < 100
  {}

  lemma TwoDigits(v: nat)
    requires v < 100
    ensures |Format(v, 2)| == 2 && Reads(Format(v, 2), v)
  {
    assert Pow10(2) == 100;
    PaddedReads(v, 2);
  }
}

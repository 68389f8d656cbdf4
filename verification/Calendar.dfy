/**
  Days and dates. The closed form of the utilities is set against the Gregorian calendar as it is told: which years
  are leap, how long the months are, and which date follows which.
 */
module Calendar {
  import opened Options

  // ---------- division as the source has it ----------

  /** C division: towards zero. */
  function CDiv(a: int, b: int): int
    requires b > 0
  {
    if a >= 0 then a / b else -((-a) / b)
  }

  function CMod(a: int, b: int): int
    requires b > 0
  {
    a - b * CDiv(a, b)
  }

  /** `pcr_floor_div` and `floor_div`, for the positive divisors they are used with. */
  function FloorDiv(a: int, b: int): int
    requires b > 0
  {
    if CMod(a, b) != 0 && a < 0 then CDiv(a, b) - 1 else CDiv(a, b)
  }

  /** The quotient is the largest whose product does not exceed the dividend, for negative dividends too. */
  lemma FloorDivIsFloor(a: int, b: int)
    requires b > 0
    ensures b * FloorDiv(a, b) <= a < b * FloorDiv(a, b) + b
  {
    if a < 0 {
      var q, r := (-a) / b, (-a) % b;
      assert -a == b * q + r;
      assert b * (-q) == -(b * q);
      assert b * (-q - 1) == -(b * q) - b;
    }
  }

  /** Two's complement, 32 bits. */
  function ToInt32(v: int): int {
    (v + 0x8000_0000) % 0x1_0000_0000 - 0x8000_0000
  }

  lemma ToInt32IsSame(v: int)
    ensures ToInt32(v) == v <==> -0x8000_0000 <= v < 0x8000_0000
  {
  }

  // ---------- the calendar as it is told ----------

  predicate IsLeap(year: int) {
    (year % 4 == 0 && year % 100 != 0) || year % 400 == 0
  }

  function DaysInMonth(month: int, year: int): (n: int)
    requires 1 <= month <= 12
    ensures 28 <= n <= 31
  {
    if month == 2 && IsLeap(year) then 29
    else [31, 28, 31, 30, 31, 30, 31, 31, 30, 31, 30, 31][month - 1]
  }

  function DaysInYear(year: int): int {
    if IsLeap(year) then 366 else 365
  }

  datatype Date = Date(year: int, month: int, day: int)

  predicate Valid(date: Date) {
    1 <= date.month <= 12 && 1 <= date.day <= DaysInMonth(date.month, date.year)
  }

  /** The day after. */
  function Next(date: Date): Date
    requires Valid(date)
  {
    if date.day < DaysInMonth(date.month, date.year) then Date(date.year, date.month, date.day + 1)
    else if date.month < 12 then Date(date.year, date.month + 1, 1)
    else Date(date.year + 1, 1, 1)
  }

  /** Days from the first of January 1970 to that of `year`, year by year. */
  function YearStart(year: int): int
    decreases if year >= 1970 then year - 1970 else 1970 - year
  {
    if year > 1970 then YearStart(year - 1) + DaysInYear(year - 1)
    else if year < 1970 then YearStart(year + 1) - DaysInYear(year)
    else 0
  }

  /** Days from the first of January to the first of the month. */
  function MonthStart(month: int, year: int): int
    requires 1 <= month <= 12
  {
    if month == 1 then 0 else MonthStart(month - 1, year) + DaysInMonth(month - 1, year)
  }

  /** The number of a date: days from the first of January 1970. */
  function Number(date: Date): int
    requires 1 <= date.month <= 12
  {
    YearStart(date.year) + MonthStart(date.month, date.year) + date.day - 1
  }

  lemma YearStartNext(year: int)
    ensures YearStart(year + 1) == YearStart(year) + DaysInYear(year)
  {
  }

  lemma MonthStarts(year: int)
    ensures var l := if IsLeap(year) then 1 else 0;
            && MonthStart(1, year) == 0 && MonthStart(2, year) == 31 && MonthStart(3, year) == 59 + l
            && MonthStart(4, year) == 90 + l && MonthStart(5, year) == 120 + l && MonthStart(6, year) == 151 + l
            && MonthStart(7, year) == 181 + l && MonthStart(8, year) == 212 + l && MonthStart(9, year) == 243 + l
            && MonthStart(10, year) == 273 + l && MonthStart(11, year) == 304 + l && MonthStart(12, year) == 334 + l
  {
    assert MonthStart(2, year) == MonthStart(1, year) + 31;
    assert MonthStart(3, year) == MonthStart(2, year) + DaysInMonth(2, year);
    assert MonthStart(4, year) == MonthStart(3, year) + 31;
    assert MonthStart(5, year) == MonthStart(4, year) + 30;
    assert MonthStart(6, year) == MonthStart(5, year) + 31;
    assert MonthStart(7, year) == MonthStart(6, year) + 30;
    assert MonthStart(8, year) == MonthStart(7, year) + 31;
    assert MonthStart(9, year) == MonthStart(8, year) + 31;
    assert MonthStart(10, year) == MonthStart(9, year) + 30;
    assert MonthStart(11, year) == MonthStart(10, year) + 31;
    assert MonthStart(12, year) == MonthStart(11, year) + 30;
  }

  /** The day after has the next number. */
  lemma NumberNext(date: Date)
    requires Valid(date)
    ensures Valid(Next(date)) && Number(Next(date)) == Number(date) + 1
  {
    hide IsLeap;
    if date.day == DaysInMonth(date.month, date.year) && date.month == 12 {
      YearStartNext(date.year);
      MonthStarts(date.year);
    }
  }

  // ---------- the closed form ----------

  /** The era of 400 years, by C division. */
  function EraOfDay(z: int): int {
    CDiv(if z >= 0 then z else z - 146096, 146097)
  }

  /** The year of the era, from the day of the era. */
  function YearFromDay(doe: int): int {
    (doe - doe / 1460 + doe / 36524 - doe / 146096) / 365
  }

  /** Month and day from the day of a year that begins in March; January and February belong to the next year. */
  function MonthAndDay(y: int, doy: int): Date {
    var mp := (5 * doy + 2) / 153;
    var d := doy - (153 * mp + 2) / 5 + 1;
    var m := if mp < 10 then mp + 3 else mp - 9;
    Date(y + if m <= 2 then 1 else 0, m, d)
  }

  /** `pcr_civil_from_days` without its last cast. */
  function GregorianDate(days: int): Date {
    var z := days + 719468;
    var era := EraOfDay(z);
    var doe := z - era * 146097;
    var yoe := YearFromDay(doe);
    MonthAndDay(yoe + era * 400, doe - (365 * yoe + yoe / 4 - yoe / 100))
  }

  /**
    `pcr_civil_from_days` and `civil_from_days`: the year is made an `int` before January and February move it on. None
    when no `int` holds that sum, which C leaves undefined.
   */
  function CivilFromDays(days: int): Option<Date> {
    var g := GregorianDate(days);
    var late := if g.month <= 2 then 1 else 0;
    var year := ToInt32(g.year - late) + late;
    if year < 0x8000_0000 then Some(Date(year, g.month, g.day)) else None
  }

  /** Where a day of the era lies: century, group of four years, year, day of the year. */
  lemma InEra(doe: int) returns (c: int, q: int, y: int, r: int)
    requires 0 <= doe < 146097
    ensures 0 <= c <= 3 && 0 <= q <= 24 && 0 <= y <= 3 && 0 <= r <= 365
    ensures doe == 36524 * c + 1461 * q + 365 * y + r
    ensures r == 365 ==> y == 3 && (q < 24 || c == 3)
  {
    c := if doe / 36524 > 3 then 3 else doe / 36524;
    var s := doe - 36524 * c;
    assert 0 <= s <= 36524 && (s == 36524 ==> c == 3);
    q := s / 1461;
    var t := s - 1461 * q;
    assert 0 <= t <= 1460 && 0 <= q <= 24;
    y := if t / 365 > 3 then 3 else t / 365;
    r := t - 365 * y;
  }

  /** The closed form for the year of the era. */
  lemma YearOfEra(doe: int, c: int, q: int, y: int, r: int)
    requires 0 <= c <= 3 && 0 <= q <= 24 && 0 <= y <= 3 && 0 <= r <= 365
    requires r == 365 ==> y == 3 && (q < 24 || c == 3)
    requires doe == 36524 * c + 1461 * q + 365 * y + r
    ensures (doe - doe / 1460 + doe / 36524 - doe / 146096) / 365 == 100 * c + 4 * q + y
  {
    var last := if 24 * c + q + 365 * y + r >= 1460 then 1 else 0;
    assert doe == 1460 * (25 * c + q + last) + (24 * c + q + 365 * y + r - 1460 * last);
    assert doe / 1460 == 25 * c + q + last;
    assert doe / 36524 - doe / 146096 == c by {
      Centuries(doe, c, q, y, r);
    }
    var e := doe - doe / 1460 + doe / 36524 - doe / 146096;
    assert e == 365 * (100 * c + 4 * q + y) + (r - last);
  }

  lemma Centuries(doe: int, c: int, q: int, y: int, r: int)
    requires 0 <= c <= 3 && 0 <= q <= 24 && 0 <= y <= 3 && 0 <= r <= 365
    requires r == 365 ==> y == 3 && (q < 24 || c == 3)
    requires doe == 36524 * c + 1461 * q + 365 * y + r
    ensures doe / 36524 - doe / 146096 == c
  {
    var s := 1461 * q + 365 * y + r;
    assert s <= 36524 && (s == 36524 ==> c == 3);
  }

  lemma YearsInEraAt(c: int, q: int, y: int)
    requires 0 <= c <= 3 && 0 <= q <= 24 && 0 <= y <= 3
    ensures var k := 100 * c + 4 * q + y;
            && 365 * k + k / 4 - k / 100 == 36524 * c + 1461 * q + 365 * y
            && k / 400 == 0
  {
    var k := 100 * c + 4 * q + y;
    assert k == 4 * (25 * c + q) + y;
    assert k / 4 == 25 * c + q;
    assert k == 100 * c + (4 * q + y) && 4 * q + y <= 99;
    assert k / 100 == c;
  }

  /** The closed form for month and day, counted from March. */
  function MarchOffset(mp: int): int {
    (153 * mp + 2) / 5
  }

  lemma MonthOfYear(mp: int, day: int, doy: int)
    requires 0 <= mp <= 11 && doy == MarchOffset(mp) + day - 1 && doy <= 365
    requires 1 <= day && (mp < 11 ==> day <= MarchOffset(mp + 1) - MarchOffset(mp))
    ensures (5 * doy + 2) / 153 == mp
  {
    var x := 153 * mp + 2;
    var f := x / 5;
    assert 5 * f <= x < 5 * f + 5;
    if mp < 11 {
      var g := (153 * (mp + 1) + 2) / 5;
      assert 5 * g <= 153 * mp + 155;
      assert doy <= g - 1;
    }
  }

  // ---------- years counted from March ----------

  /** The number of the first of March of the year. */
  function MarchFirst(year: int): int {
    365 * year + year / 4 - year / 100 + year / 400 - 719468
  }

  lemma MarchNext(year: int)
    ensures MarchFirst(year) == MarchFirst(year - 1) + DaysInYear(year)
  {
    Quotients(year, 4);
    Quotients(year, 100);
    Quotients(year, 400);
    Multiples(year);
  }

  lemma Quotients(y: int, n: int)
    requires n == 4 || n == 100 || n == 400
    ensures y / n == (y - 1) / n + if y % n == 0 then 1 else 0
  {
  }

  lemma Multiples(y: int)
    ensures y % 400 == 0 ==> y % 100 == 0
    ensures y % 100 == 0 ==> y % 4 == 0
  {
    if y % 400 == 0 {
      var x := 4 * (y / 400) - y / 100;
      assert y % 100 == 100 * x;
    }
    if y % 100 == 0 {
      var x := 25 * (y / 100) - y / 4;
      assert y % 4 == 4 * x;
    }
  }

  /** The year-by-year count and the closed form of it. */
  lemma {:induction false} YearStartIs(year: int)
    ensures YearStart(year) == MarchFirst(year - 1) + 306
    decreases if year >= 1970 then year - 1970 else 1970 - year
  {
    hide MarchFirst;
    if year > 1970 {
      YearStartIs(year - 1);
      MarchNext(year - 1);
    } else if year < 1970 {
      YearStartIs(year + 1);
      MarchNext(year);
    } else {
      Epoch();
    }
  }

  lemma Epoch()
    ensures MarchFirst(1969) == -306
  {
  }

  /** The number of a date in terms of the year counted from March. */
  lemma NumberFromMarch(date: Date)
    requires Valid(date)
    ensures var late := if date.month <= 2 then 1 else 0;
            var mp := if date.month > 2 then date.month - 3 else date.month + 9;
            Number(date) == MarchFirst(date.year - late) + MarchOffset(mp) + date.day - 1
  {
    hide MarchFirst, IsLeap;
    YearStartIs(date.year);
    MonthStarts(date.year);
    MarchNext(date.year);
  }

  /** Years come in eras of 400. */
  lemma MarchInEra(e: int, c: int, q: int, y: int)
    requires 0 <= c <= 3 && 0 <= q <= 24 && 0 <= y <= 3
    ensures MarchFirst(400 * e + (100 * c + 4 * q + y)) == 146097 * e + (36524 * c + 1461 * q + 365 * y) - 719468
  {
    var k := 100 * c + 4 * q + y;
    YearsInEraAt(c, q, y);
    var year := 400 * e + k;
    assert year == 4 * (100 * e) + k && year == 100 * (4 * e) + k;
    assert year / 4 == 100 * e + k / 4;
    assert year / 100 == 4 * e + k / 100;
    assert year / 400 == e;
  }

  /** The era is found for days before year zero as well. */
  lemma EraFound(z: int, e: int, doe: int)
    requires z == 146097 * e + doe && 0 <= doe < 146097
    ensures CDiv(if z >= 0 then z else z - 146096, 146097) == e
  {
    if z < 0 {
      var w := 146096 - z;
      assert w == 146097 * (-e) + (146096 - doe);
      assert w / 146097 == -e;
    } else {
      assert z / 146097 == e;
    }
  }

  /** A date in terms of its era, its year in the era and its day in that year. */
  lemma ClosedAt(e: int, c: int, q: int, y: int, r: int, mp: int, day: int)
    requires 0 <= c <= 3 && 0 <= q <= 24 && 0 <= y <= 3 && 0 <= r <= 365
    requires r == 365 ==> y == 3 && (q < 24 || c == 3)
    requires 0 <= mp <= 11 && r == MarchOffset(mp) + day - 1 && 1 <= day
    requires mp < 11 ==> day <= MarchOffset(mp + 1) - MarchOffset(mp)
    ensures var days := 146097 * e + (36524 * c + 1461 * q + 365 * y) + r - 719468;
            GregorianDate(days) ==
              Date(400 * e + (100 * c + 4 * q + y) + (if mp >= 10 then 1 else 0), if mp < 10 then mp + 3 else mp - 9, day)
  {
    hide MarchOffset, CDiv, GregorianDate, MonthAndDay;
    var doe := 36524 * c + 1461 * q + 365 * y + r;
    var days := 146097 * e + doe - 719468;
    var yoe := 100 * c + 4 * q + y;
    assert doe < 146097;
    EraFound(days + 719468, e, doe);
    YearOfEra(doe, c, q, y, r);
    YearsInEraAt(c, q, y);
    MonthOfYear(mp, day, r);
    ByParts(days, e, doe, yoe, r, mp, day);
  }

  /** The steps of the closed form, one after the other. */
  lemma ByParts(days: int, era: int, doe: int, yoe: int, doy: int, mp: int, day: int)
    requires era == EraOfDay(days + 719468) && doe == days + 719468 - era * 146097 && yoe == YearFromDay(doe)
    requires doy == doe - (365 * yoe + yoe / 4 - yoe / 100)
    requires mp == (5 * doy + 2) / 153 && day == doy - MarchOffset(mp) + 1 && 0 <= mp <= 11
    ensures GregorianDate(days) == Date(yoe + era * 400 + (if mp >= 10 then 1 else 0), if mp < 10 then mp + 3 else mp - 9, day)
  {
    hide EraOfDay, YearFromDay, MarchOffset, MonthAndDay;
    FromMarch(yoe + era * 400, doy, mp, day);
  }

  lemma FromMarch(y: int, doy: int, mp: int, day: int)
    requires mp == (5 * doy + 2) / 153 && day == doy - MarchOffset(mp) + 1 && 0 <= mp <= 11
    ensures MonthAndDay(y, doy) == Date(y + (if mp >= 10 then 1 else 0), if mp < 10 then mp + 3 else mp - 9, day)
  {
  }

  /** Day and month fit the day of the year counted from March. */
  lemma MonthFits(date: Date)
    requires Valid(date)
    ensures var mp := if date.month > 2 then date.month - 3 else date.month + 9;
            && 0 <= mp <= 11 && 0 <= MarchOffset(mp) + date.day - 1 <= 365
            && (mp < 11 ==> date.day <= MarchOffset(mp + 1) - MarchOffset(mp))
            && (MarchOffset(mp) + date.day - 1 == 365 ==> date.month == 2 && date.day == 29 && IsLeap(date.year))
  {
    hide IsLeap;
  }

  /** A leap year that begins in March of `year` ends with the leap day. */
  lemma LeapInEra(e: int, c: int, q: int, y: int)
    requires 0 <= c <= 3 && 0 <= q <= 24 && 0 <= y <= 3
    ensures IsLeap(400 * e + (100 * c + 4 * q + y) + 1) <==> y == 3 && (q < 24 || c == 3)
  {
    var n := 100 * c + 4 * q + y + 1;
    var year := 400 * e + n;
    assert year == 4 * (100 * e + 25 * c + q) + (y + 1);
    assert year % 4 == 0 <==> y == 3;
    var t := 4 * q + y + 1;
    assert year == 100 * (4 * e + c) + t && 1 <= t <= 100;
    assert year % 100 == 0 <==> t == 100;
    assert 1 <= n <= 400;
    assert year % 400 == 0 <==> n == 400;
  }

  lemma EraOf(year: int) returns (e: int, c: int, q: int, y: int)
    ensures 0 <= c <= 3 && 0 <= q <= 24 && 0 <= y <= 3 && year == 400 * e + (100 * c + 4 * q + y)
  {
    e := year / 400;
    var k := year % 400;
    c := k / 100;
    q := k % 100 / 4;
    y := k % 100 % 4;
  }

  // ---------- the closed form is the calendar ----------

  /** Numbering a date and converting the number gives the date back. */
  lemma DateOfNumber(date: Date)
    requires Valid(date)
    ensures GregorianDate(Number(date)) == date
  {
    hide GregorianDate, Number, MarchFirst, IsLeap, MarchOffset, DaysInMonth;
    var late := if date.month <= 2 then 1 else 0;
    var mp := if date.month > 2 then date.month - 3 else date.month + 9;
    var e, c, q, y := EraOf(date.year - late);
    NumberFromMarch(date);
    MonthFits(date);
    MarchInEra(e, c, q, y);
    LeapInEra(e, c, q, y);
    ClosedAt(e, c, q, y, MarchOffset(mp) + date.day - 1, mp, date.day);
  }

  lemma MonthFor(r: int) returns (mp: int, day: int)
    requires 0 <= r <= 365
    ensures 0 <= mp <= 11 && r == MarchOffset(mp) + day - 1 && 1 <= day
    ensures mp < 11 ==> day <= MarchOffset(mp + 1) - MarchOffset(mp)
    ensures mp == 11 ==> day <= 29 && (day == 29 ==> r == 365)
  {
    mp := (5 * r + 2) / 153;
    day := r - MarchOffset(mp) + 1;
    var f, g := MarchOffset(mp), MarchOffset(mp + 1);
    assert 5 * f <= 153 * mp + 2 && 153 * mp + 2 < 5 * f + 5;
    assert 5 * g <= 153 * mp + 155 && 153 * mp + 155 < 5 * g + 5;
    assert 153 * mp <= 5 * r + 2 < 153 * mp + 153;
  }

  lemma MonthLength(mp: int, day: int, year: int)
    requires 0 <= mp <= 11 && 1 <= day && (mp < 11 ==> day <= MarchOffset(mp + 1) - MarchOffset(mp))
    requires mp == 11 ==> day <= 29 && (day == 29 ==> IsLeap(year))
    ensures Valid(Date(year, if mp < 10 then mp + 3 else mp - 9, day))
  {
    hide IsLeap;
  }

  /** Every day has a date, and converting gives a valid date whose number is the day. */
  lemma NumberOfDate(days: int)
    ensures Valid(GregorianDate(days)) && Number(GregorianDate(days)) == days
  {
    hide GregorianDate, Number, MarchFirst, IsLeap, MarchOffset, DaysInMonth, Valid;
    var z := days + 719468;
    var e, doe := z / 146097, z % 146097;
    var c, q, y, r := InEra(doe);
    var mp, day := MonthFor(r);
    var date := Date(400 * e + (100 * c + 4 * q + y) + (if mp >= 10 then 1 else 0), if mp < 10 then mp + 3 else mp - 9, day);
    LeapInEra(e, c, q, y);
    MonthLength(mp, day, date.year);
    MarchInEra(e, c, q, y);
    NumberFromMarch(date) by {
      ValidMonth(date);
    }
    ClosedAt(e, c, q, y, r, mp, day);
  }

  lemma ValidMonth(date: Date)
    requires Valid(date)
    ensures 1 <= date.month <= 12
  {
  }

  /** Day zero, and from each day to the next. */
  lemma DaysAdvance(days: int)
    ensures GregorianDate(0) == Date(1970, 1, 1)
    ensures Valid(GregorianDate(days)) && GregorianDate(days + 1) == Next(GregorianDate(days))
  {
    hide GregorianDate, Number, Next;
    First();
    DateOfNumber(Date(1970, 1, 1));
    NumberOfDate(days);
    NumberNext(GregorianDate(days));
    DateOfNumber(Next(GregorianDate(days)));
  }

  lemma First()
    ensures Valid(Date(1970, 1, 1)) && Number(Date(1970, 1, 1)) == 0
  {
  }

  lemma MarchGrows(a: int, b: int)
    requires a <= b
    ensures MarchFirst(a) <= MarchFirst(b)
    decreases b - a
  {
    hide MarchFirst;
    if a < b {
      MarchGrows(a, b - 1);
      MarchNext(b);
    }
  }

  /** The year the closed form computes before the cast, and the days that belong to it. */
  lemma YearSpan(days: int)
    ensures var g := GregorianDate(days);
            var y := g.year - if g.month <= 2 then 1 else 0;
            MarchFirst(y) <= days < MarchFirst(y + 1)
  {
    hide GregorianDate, Number, MarchFirst, IsLeap, MarchOffset, DaysInMonth;
    NumberOfDate(days);
    var g := GregorianDate(days);
    NumberFromMarch(g);
    MonthFits(g);
    var y := g.year - if g.month <= 2 then 1 else 0;
    MarchNext(y + 1);
    var mp := if g.month > 2 then g.month - 3 else g.month + 9;
    assert MarchOffset(mp) + g.day - 1 == 365 ==> g.year == y + 1 && IsLeap(y + 1);
  }

  /** The days from March of year -2^31 to December of year 2^31 - 1. */
  predicate YearFits(days: int) {
    MarchFirst(-0x8000_0000) <= days < YearStart(0x8000_0000)
  }

  /** In terms of the date: the year is an `int`, and so is that of the March before. */
  lemma YearFitsDate(days: int)
    ensures var g := GregorianDate(days);
            YearFits(days) <==> -0x8000_0000 <= g.year - (if g.month <= 2 then 1 else 0) && g.year < 0x8000_0000
  {
    hide GregorianDate, MarchFirst, YearStart, Number, MonthStart;
    YearSpan(days);
    NumberOfDate(days);
    var g := GregorianDate(days);
    var y := g.year - if g.month <= 2 then 1 else 0;
    if y >= -0x8000_0000 {
      MarchGrows(-0x8000_0000, y);
    } else {
      MarchGrows(y + 1, -0x8000_0000);
    }
    InYear(g);
    if g.year >= 0x8000_0000 {
      StartGrows(0x8000_0000, g.year);
    } else {
      StartGrows(g.year + 1, 0x8000_0000);
    }
  }

  /** A date lies within its year. */
  lemma InYear(date: Date)
    requires Valid(date)
    ensures YearStart(date.year) <= Number(date) < YearStart(date.year + 1)
  {
    hide YearStart, IsLeap;
    MonthStarts(date.year);
    YearStartNext(date.year);
  }

  lemma StartGrows(a: int, b: int)
    requires a <= b
    ensures YearStart(a) <= YearStart(b)
  {
    hide MarchFirst, YearStart;
    YearStartIs(a);
    YearStartIs(b);
    MarchGrows(a - 1, b - 1);
  }

  /** The conversion in 32 bits is right exactly for the days from March of year -2^31 to the end of year 2^31 - 1. */
  lemma CivilExactly(days: int)
    ensures CivilFromDays(days) == Some(GregorianDate(days)) <==> YearFits(days)
  {
    hide GregorianDate, ToInt32, YearFits;
    YearFitsDate(days);
    var g := GregorianDate(days);
    ToInt32IsSame(g.year - if g.month <= 2 then 1 else 0);
  }

  /** And it is undefined exactly in January and February of the years that are 2^31 modulo 2^32. */
  lemma UndefinedExactly(days: int)
    ensures CivilFromDays(days) == None <==>
            GregorianDate(days).month <= 2 && (GregorianDate(days).year - 0x8000_0000) % 0x1_0000_0000 == 0
  {
    hide GregorianDate;
  }

  /** The first day on which the conversion is undefined, and the first for which it names another year. */
  lemma YearsTooMany()
    ensures var d := Number(Date(0x8000_0000, 1, 1));
            GregorianDate(d) == Date(0x8000_0000, 1, 1) && CivilFromDays(d) == None
    ensures var d := Number(Date(0x8000_0000, 3, 1));
            GregorianDate(d) == Date(0x8000_0000, 3, 1) && CivilFromDays(d) == Some(Date(-0x8000_0000, 3, 1))
  {
    hide GregorianDate, Number;
    DateOfNumber(Date(0x8000_0000, 1, 1));
    DateOfNumber(Date(0x8000_0000, 3, 1));
  }

  /** In the first two months of year -2^31 it is undefined too, though the year is an `int`. */
  lemma YearsTooFew()
    ensures var d := Number(Date(-0x8000_0000, 2, 29));
            GregorianDate(d) == Date(-0x8000_0000, 2, 29) && CivilFromDays(d) == None
            && CivilFromDays(d + 1) == Some(Date(-0x8000_0000, 3, 1))
  {
    hide GregorianDate, Number;
    var date := Date(-0x8000_0000, 2, 29);
    DateOfNumber(date);
    NumberNext(date);
    DateOfNumber(Next(date));
  }
}

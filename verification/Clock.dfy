/** Clock readings: centiseconds since 1970 split into fields, and the time stamps of ISO 9660 counted into them. */
module Clock {
  import opened Calendar
  import opened Options
  import opened Words

  /** The fields `pcr_format_centis` prints. */
  datatype Fields = Fields(date: Date, hour: int, minute: int, second: int)

  /** The day of a reading. */
  function DayOf(centis: int): int {
    FloorDiv(FloorDiv(centis, 100), 86400)
  }

  /** None when the conversion of the day is undefined. */
  function PcrFields(centis: int): Option<Fields> {
    var rem := FloorDiv(centis, 100) - DayOf(centis) * 86400;
    match CivilFromDays(DayOf(centis))
    case None => None
    case Some(date) => Some(Fields(date, rem / 3600, rem % 3600 / 60, rem % 3600 % 60))
  }

  /** Seconds since 1970 of a date and a time of day. */
  function Seconds(f: Fields): int
    requires 1 <= f.date.month <= 12
  {
    ((Number(f.date) * 24 + f.hour) * 60 + f.minute) * 60 + f.second
  }

  predicate InDay(f: Fields) {
    0 <= f.hour < 24 && 0 <= f.minute < 60 && 0 <= f.second < 60
  }

  lemma TimeOfDay(rem: int)
    requires 0 <= rem < 86400
    ensures 0 <= rem / 3600 < 24 && 0 <= rem % 3600 / 60 < 60 && 0 <= rem % 3600 % 60 < 60
    ensures (rem / 3600 * 60 + rem % 3600 / 60) * 60 + rem % 3600 % 60 == rem
  {
  }

  /** The fields are a date and a time of day which, put together again, are the seconds. */
  predicate Tells(r: Option<Fields>, seconds: int) {
    r.Some? && Valid(r.value.date) && InDay(r.value) && Seconds(r.value) == seconds
  }

  /**
    The fields put together again are the whole seconds, rounded down, for readings before 1970 too, exactly when the
    year of the day fits.
   */
  lemma Recombines(centis: int)
    ensures Tells(PcrFields(centis), FloorDiv(centis, 100)) <==> YearFits(DayOf(centis))
    ensures 100 * FloorDiv(centis, 100) <= centis < 100 * FloorDiv(centis, 100) + 100
  {
    hide CivilFromDays, FloorDiv, GregorianDate, Number, Valid, YearFits;
    var seconds := FloorDiv(centis, 100);
    var days := DayOf(centis);
    FloorDivIsFloor(centis, 100);
    FloorDivIsFloor(seconds, 86400);
    CivilExactly(days);
    NumberOfDate(days);
    ValidMonth(GregorianDate(days));
    TimeOfDay(seconds - days * 86400);
    if Tells(PcrFields(centis), seconds) {
      var date := PcrFields(centis).value.date;
      ValidMonth(date);
      OneQuotient(Number(date), days, seconds, 86400);
      DateOfNumber(date);
    }
  }

  /** And the other way: the fields of the reading of a date and a time of day are that date and time. */
  lemma SplitsBack(f: Fields, centis: int)
    requires Valid(f.date) && InDay(f) && 100 * Seconds(f) <= centis < 100 * Seconds(f) + 100
    ensures PcrFields(centis) == Some(f) <==> YearFits(Number(f.date))
  {
    hide CivilFromDays, FloorDiv, GregorianDate, Number, Valid, YearFits;
    ValidMonth(f.date);
    var n := Number(f.date);
    var seconds := Seconds(f);
    FloorDivIsFloor(centis, 100);
    OneQuotient(FloorDiv(centis, 100), seconds, centis, 100);
    var rem := (f.hour * 60 + f.minute) * 60 + f.second;
    assert seconds == 86400 * n + rem;
    FloorDivIsFloor(seconds, 86400);
    OneQuotient(FloorDiv(seconds, 86400), n, seconds, 86400);
    CivilExactly(n);
    DateOfNumber(f.date);
    SameTime(f.hour, f.minute, f.second);
  }

  predicate IsLong(v: int) {
    -0x8000_0000_0000_0000 <= v < 0x8000_0000_0000_0000
  }

  /** Before the cast of the year no step leaves 64 bits, whatever the reading. */
  lemma StepsFit(centis: int)
    requires IsLong(centis)
    ensures var days := DayOf(centis);
            var z := days + 719468;
            var era := EraOfDay(z);
            && IsLong(FloorDiv(centis, 100)) && IsLong(days * 86400) && IsLong(z) && IsLong(z - 146096)
            && IsLong(era * 146097) && 0 <= z - era * 146097 < 146097 && IsLong(era * 400 + 399)
  {
    hide FloorDiv;
    var seconds := FloorDiv(centis, 100);
    FloorDivIsFloor(centis, 100);
    FloorDivIsFloor(seconds, 86400);
  }

  /** Readings of 64 bits reach the first day on which the conversion is undefined, after and before 1970. */
  lemma UndefinedReached()
    ensures exists centis :: IsLong(centis) && centis > 0 && PcrFields(centis) == None
    ensures exists centis :: IsLong(centis) && centis < 0 && PcrFields(centis) == None
  {
    hide CivilFromDays, FloorDiv, GregorianDate, Number;
    YearsTooMany();
    YearsTooFew();
    UndefinedOn(Date(0x8000_0000, 1, 1));
    UndefinedOn(Date(-0x8000_0000, 2, 29));
  }

  lemma UndefinedOn(date: Date)
    requires Valid(date) && -0x8000_0000 <= date.year <= 0x8000_0000 && CivilFromDays(Number(date)) == None
    ensures PcrFields(8640000 * Number(date)) == None && IsLong(8640000 * Number(date))
    ensures date.year > 1970 ==> Number(date) > 0
    ensures date.year < 1970 ==> Number(date) < 0
  {
    hide CivilFromDays, FloorDiv, GregorianDate, Number, YearStart;
    var d := Number(date);
    FloorDivIsFloor(8640000 * d, 100);
    OneQuotient(FloorDiv(8640000 * d, 100), 86400 * d, 8640000 * d, 100);
    FloorDivIsFloor(86400 * d, 86400);
    OneQuotient(FloorDiv(86400 * d, 86400), d, 86400 * d, 86400);
    InYear(date);
    YearStartIs(date.year);
    YearStartIs(date.year + 1);
  }

  lemma OneQuotient(a: int, b: int, x: int, n: int)
    requires n == 100 || n == 86400
    requires n * a <= x < n * a + n && n * b <= x < n * b + n
    ensures a == b
  {
  }

  lemma SameTime(h: int, m: int, s: int)
    requires 0 <= h < 24 && 0 <= m < 60 && 0 <= s < 60
    ensures var rem := (h * 60 + m) * 60 + s;
            rem / 3600 == h && rem % 3600 / 60 == m && rem % 3600 % 60 == s
  {
    var rem := (h * 60 + m) * 60 + s;
    assert rem == 3600 * h + (60 * m + s);
    assert rem % 3600 == 60 * m + s;
  }

  // ---------- date ----------

  /** What `split_centis` fills in. */
  datatype Stamp = Stamp(fields: Fields, weekday: int, yday: int)

  /**
    `split_centis`, as far as the conversion of the day is defined. Day zero was a Thursday, and the first of January is
    day one of its year.
   */
  method SplitCentis(centis: int) returns (r: Option<Stamp>)
    ensures r == None <==> PcrFields(centis) == None
    ensures r.Some? ==> r.value.fields == PcrFields(centis).value
    ensures r.Some? ==> 0 <= r.value.weekday < 7 && (DayOf(centis) + 4 - r.value.weekday) % 7 == 0
    ensures r.Some? ==>
              var year := r.value.fields.date.year;
              && -0x8000_0000 <= year < 0x8000_0000
              && (YearFits(DayOf(centis)) <==>
                    1 <= r.value.yday <= DaysInYear(year) && YearStart(year) + r.value.yday - 1 == DayOf(centis))
  {
    hide CivilFromDays, FloorDiv, MarchFirst, YearStart, Number, YearFits;
    var seconds := FloorDiv(centis, 100);
    var days := FloorDiv(seconds, 86400);
    var rem := seconds - days * 86400;
    var civil := CivilFromDays(days);
    if civil == None {
      return None;
    }
    var date := civil.value;
    var hour := rem / 3600;
    rem := rem % 3600;
    var minute := rem / 60;
    var second := rem % 60;
    var weekday := CMod(days + 4, 7);
    if weekday < 0 {
      weekday := weekday + 7;
    }
    Weekday(days, weekday);
    CivilInRange(days);
    var yday := date.day;
    for m := 1 to date.month
      invariant yday == date.day + MonthStart(m, date.year)
    {
      yday := yday + DaysInMonth(m, date.year);
    }
    DayOfYear(days);
    r := Some(Stamp(Fields(date, hour, minute, second), weekday, yday));
  }

  lemma Weekday(days: int, weekday: int)
    requires weekday == CMod(days + 4, 7) || (CMod(days + 4, 7) < 0 && weekday == CMod(days + 4, 7) + 7)
    requires CMod(days + 4, 7) < 0 ==> weekday == CMod(days + 4, 7) + 7
    ensures 0 <= weekday < 7 && (days + 4 - weekday) % 7 == 0
  {
    var d := days + 4;
    if d < 0 {
      var q, r := (-d) / 7, (-d) % 7;
      assert -d == 7 * q + r;
    }
  }

  lemma CivilInRange(days: int)
    requires CivilFromDays(days).Some?
    ensures 1 <= CivilFromDays(days).value.month <= 12 && -0x8000_0000 <= CivilFromDays(days).value.year < 0x8000_0000
  {
    hide GregorianDate, Number, DaysInMonth;
    NumberOfDate(days);
  }

  lemma DayOfYear(days: int)
    requires CivilFromDays(days).Some? && 1 <= CivilFromDays(days).value.month <= 12
    ensures var date := CivilFromDays(days).value;
            var yday := date.day + MonthStart(date.month, date.year);
            YearFits(days) <==> 1 <= yday <= DaysInYear(date.year) && YearStart(date.year) + yday - 1 == days
  {
    hide GregorianDate, CivilFromDays, IsLeap, YearFits, YearStart;
    CivilInRange(days);
    YearStartNext(CivilFromDays(days).value.year);
    if YearFits(days) {
      CivilExactly(days);
      NumberOfDate(days);
      MonthStarts(CivilFromDays(days).value.year);
    } else if YearStart(CivilFromDays(days).value.year) <= days < YearStart(CivilFromDays(days).value.year + 1) {
      NotOfAnInt(days, CivilFromDays(days).value.year);
    }
  }

  /** A day of a year that is an `int` is converted rightly or not at all. */
  lemma NotOfAnInt(days: int, year: int)
    requires !YearFits(days) && YearStart(year) <= days < YearStart(year + 1) && -0x8000_0000 <= year < 0x8000_0000
    ensures CivilFromDays(days) == None
  {
    hide GregorianDate, CivilFromDays, Number, YearFits, YearStart;
    var g := GregorianDate(days);
    NumberOfDate(days);
    InYear(g);
    if g.year < year {
      StartGrows(g.year + 1, year);
    } else if g.year > year {
      StartGrows(year + 1, g.year);
    }
    YearFitsDate(days);
    UndefinedExactly(days);
  }

  // ---------- ISO 9660 ----------

  /** The GMT offset byte, in units of a quarter of an hour. */
  function Signed(b: Byte): int {
    if b < 128 then b else b - 256
  }

  /** The date and time of a stamp of seven bytes, by the clock of the place. */
  function StampFields(p: seq<Byte>): Fields
    requires |p| == 7
  {
    Fields(Date(1900 + (p[0] as int), p[1], p[2]), p[3], p[4], p[5])
  }

  /**
    `isofs_time_to_unix`: centiseconds since 1970, for exactly the stamps that are a date and a time of day. The days
    are counted year by year and month by month.
   */
  method IsoTime(p: seq<Byte>) returns (r: Option<int>)
    requires |p| == 7
    ensures r.Some? <==> Valid(StampFields(p).date) && InDay(StampFields(p))
    ensures r.Some? ==> r.value == (Seconds(StampFields(p)) - Signed(p[6]) * 900) * 100
    ensures r.Some? ==> r.value == 100 * Seconds(StampFields(p)) - 90000 * (p[6] as int) + if p[6] < 128 then 0 else 90000 * 256
  {
    var year: int, month: int, day: int := 1900 + (p[0] as int), p[1], p[2];
    var hour: int, minute: int, second: int := p[3], p[4], p[5];
    var gmtOffset := Signed(p[6]);
    if month < 1 || month > 12 || day < 1 || day > DaysInMonth(month, year) || hour > 23 || minute > 59 || second > 59 {
      return None;
    }
    var days := 0;
    if year >= 1970 {
      for y := 1970 to year
        invariant days == YearStart(y)
      {
        YearStartNext(y);
        days := days + DaysInYear(y);
      }
    } else {
      for y := year to 1970
        invariant days == YearStart(year) - YearStart(y)
      {
        YearStartNext(y);
        days := days - DaysInYear(y);
      }
    }
    for m := 1 to month
      invariant days == YearStart(year) + MonthStart(m, year)
    {
      days := days + DaysInMonth(m, year);
    }
    days := days + day - 1;
    var seconds := days * 86400 + hour * 3600 + minute * 60 + second;
    seconds := seconds - gmtOffset * 15 * 60;
    return Some(seconds * 100);
  }

  /** A stamp counted into centiseconds and split again, by the clock of its place, is the stamp. */
  lemma IsoRoundTrip(p: seq<Byte>, centis: int)
    requires |p| == 7 && Valid(StampFields(p).date) && InDay(StampFields(p))
    requires centis == (Seconds(StampFields(p)) - Signed(p[6]) * 900) * 100
    ensures PcrFields(centis + Signed(p[6]) * 90000) == Some(StampFields(p))
  {
    hide PcrFields, Number, MarchFirst, CivilFromDays;
    IsoYearFits(StampFields(p).date);
    SplitsBack(StampFields(p), centis + Signed(p[6]) * 90000);
  }

  lemma IsoYearFits(date: Date)
    requires Valid(date) && 1900 <= date.year <= 2155
    ensures YearFits(Number(date))
  {
    hide GregorianDate, Number, YearFits;
    YearFitsDate(Number(date));
    DateOfNumber(date);
  }
}

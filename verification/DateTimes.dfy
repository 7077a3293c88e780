/** The conversion of an XML date and time to an OPC UA DateTime (section 5.2.2.5 of OPC UA Part 6):
    the number of 100 ns since 1601-01-01T00:00:00Z, clamped. Fractions of a second are exact decimals,
    and seconds count from 1601.
 */
module DateTimes {
  import opened Basics

  // ----- The calendar -----

  datatype Date = Date(year: int, month: int, day: int)

  predicate IsLeap(year: int) {
    year % 4 == 0 && (year % 100 != 0 || year % 400 == 0)
  }

  function DaysIn(year: int, month: int): int {
    if month == 2 then (if IsLeap(year) then 29 else 28)
    else if month == 4 || month == 6 || month == 9 || month == 11 then 30
    else 31
  }

  predicate IsDate(d: Date) {
    1 <= d.month <= 12 && 1 <= d.day <= DaysIn(d.year, d.month)
  }

  function DaysBeforeYear(year: int): int {
    (year - 1) * 365 + (year - 1) / 4 - (year - 1) / 100 + (year - 1) / 400
  }

  function DaysBeforeMonth(year: int, month: int): int
    requires 1 <= month <= 12
  {
    if month == 1 then 0 else DaysBeforeMonth(year, month - 1) + DaysIn(year, month - 1)
  }

  /** The number of a day in the proleptic Gregorian calendar, where 0001-01-01 is day 1. */
  function Ordinal(d: Date): int
    requires IsDate(d)
  {
    DaysBeforeYear(d.year) + DaysBeforeMonth(d.year, d.month) + d.day
  }

  function Next(d: Date): Date {
    if d.day < DaysIn(d.year, d.month) then d.(day := d.day + 1)
    else if d.month < 12 then Date(d.year, d.month + 1, 1)
    else Date(d.year + 1, 1, 1)
  }

  lemma QuotientStep(n: int, k: int)
    requires k in {4, 100, 400}
    ensures n / k == (n - 1) / k + (if n % k == 0 then 1 else 0)
  {
    if k == 4 {
    } else if k == 100 {
    } else {
    }
  }

  lemma YearLength(year: int)
    ensures DaysBeforeYear(year + 1) == DaysBeforeYear(year) + (if IsLeap(year) then 366 else 365)
  {
    QuotientStep(year, 4);
    QuotientStep(year, 100);
    QuotientStep(year, 400);
    CenturiesDivide(year);
  }

  lemma CenturiesDivide(year: int)
    ensures year % 100 == 0 ==> year % 4 == 0
    ensures year % 400 == 0 ==> year % 100 == 0
  {
    if year % 100 == 0 {
      assert year == 4 * (25 * (year / 100));
    }
    if year % 400 == 0 {
      assert year == 100 * (4 * (year / 400));
    }
  }

  lemma DaysBeforeDecember(year: int)
    ensures DaysBeforeMonth(year, 12) == if IsLeap(year) then 335 else 334
  {
    hide IsLeap;
    assert DaysBeforeMonth(year, 2) == 31;
    assert DaysBeforeMonth(year, 3) == DaysIn(year, 2) + 31;
    assert DaysBeforeMonth(year, 5) == DaysBeforeMonth(year, 3) + 61;
    assert DaysBeforeMonth(year, 7) == DaysBeforeMonth(year, 5) + 61;
    assert DaysBeforeMonth(year, 9) == DaysBeforeMonth(year, 7) + 62;
    assert DaysBeforeMonth(year, 11) == DaysBeforeMonth(year, 9) + 61;
  }

  /** Ordinals number the days without gap or repetition. */
  lemma OrdinalOfNext(d: Date)
    requires IsDate(d)
    ensures IsDate(Next(d)) && Ordinal(Next(d)) == Ordinal(d) + 1
    ensures d == Date(1, 1, 1) ==> Ordinal(d) == 1
  {
    if d.day == DaysIn(d.year, d.month) && d.month == 12 {
      YearLength(d.year);
      DaysBeforeDecember(d.year);
    }
  }

  lemma {:induction false} DaysBeforeYearGrows(a: int, b: int)
    requires a <= b
    ensures DaysBeforeYear(a) + 365 * (b - a) <= DaysBeforeYear(b)
    decreases b - a
  {
    if a < b {
      YearLength(b - 1);
      DaysBeforeYearGrows(a, b - 1);
    }
  }

  lemma {:induction false} DaysBeforeMonthBounds(year: int, month: int)
    requires 1 <= month <= 12
    ensures 28 * (month - 1) <= DaysBeforeMonth(year, month)
    ensures DaysBeforeMonth(year, month) + DaysIn(year, month) <= DaysBeforeMonth(year, 12) + 31
    decreases month
  {
    if month > 1 {
      DaysBeforeMonthBounds(year, month - 1);
    }
    LaterMonths(year, month);
  }

  lemma {:induction false} LaterMonths(year: int, month: int)
    requires 1 <= month <= 12
    ensures DaysBeforeMonth(year, month) + DaysIn(year, month) <= DaysBeforeMonth(year, 12) + 31
    decreases 12 - month
  {
    if month < 12 {
      LaterMonths(year, month + 1);
      assert DaysBeforeMonth(year, month + 1) == DaysBeforeMonth(year, month) + DaysIn(year, month);
    }
  }

  /** A day lies in its year. */
  lemma OrdinalInYear(d: Date)
    requires IsDate(d)
    ensures DaysBeforeYear(d.year) < Ordinal(d) <= DaysBeforeYear(d.year + 1)
    ensures Ordinal(d) == DaysBeforeYear(d.year) + 1 <==> d.month == 1 && d.day == 1
  {
    DaysBeforeMonthBounds(d.year, d.month);
    DaysBeforeDecember(d.year);
    YearLength(d.year);
  }

  // ----- Reading -----

  /** The fields of the text, in the ranges that its format allows, and the UTC offset in minutes. */
  datatype Fields = Fields(
    date: Date, hour: nat, minute: nat, second: nat, fraction: real, offset: int)

  predicate InFormat(f: Fields) {
    && 0 <= f.date.month <= 19 && 0 <= f.date.day <= 39
    && f.hour <= 29 && f.minute <= 59 && f.second <= 59
    && 0.0 <= f.fraction < 1.0
    && -20 * 60 < f.offset < 20 * 60
  }

  const MAX_OFFSET: int := 14 * 60
  const MINYEAR: int := 1
  const MAXYEAR: int := 9999

  /** The years that fit in a 32-bit integer; for any other, the constructor of `datetime` reports an overflow. */
  predicate IsInt32(year: int) {
    -0x8000_0000 <= year <= 0x7FFF_FFFF
  }

  predicate IsMidnight24(f: Fields) {
    f.hour == 24 && f.minute == 0 && f.second == 0 && f.fraction == 0.0
  }

  predicate OffsetAllowed(f: Fields) {
    -MAX_OFFSET <= f.offset <= MAX_OFFSET
  }

  /** The texts that denote a date and time, of any year. */
  predicate IsDateTime(f: Fields) {
    InFormat(f) && IsDate(f.date) && (f.hour < 24 || IsMidnight24(f)) && OffsetAllowed(f)
  }

  /** The day 1601-01-01. */
  const EPOCH_DAY: int := 584389

  /** Seconds from 1601-01-01T00:00:00Z to the given local time, without its fraction. */
  function Seconds(f: Fields): int
    requires IsDate(f.date)
  {
    (Ordinal(f.date) - EPOCH_DAY) * 86400
    + f.hour * 3600 + (f.minute - f.offset) * 60 + f.second
  }

  /** The second 9999-12-31T23:59:59Z. */
  const LAST_SECOND: int := 265046774399

  function Clamp(seconds: int): int {
    if seconds < 0 then 0 else if seconds > LAST_SECOND then LAST_SECOND else seconds
  }

  /** What Python's `datetime` can hold. */
  predicate IsHeld(f: Fields) {
    IsDate(f.date) && MINYEAR <= f.date.year <= MAXYEAR && f.hour < 24 && f.minute < 60 && f.second < 60
  }

  /** The texts that are accepted: out of the supported years, the date and the hour are not looked at. */
  predicate Accepted(f: Fields) {
    && (f.hour == 24 ==> IsMidnight24(f))
    && OffsetAllowed(f)
    && (MINYEAR <= f.date.year <= MAXYEAR ==> IsDate(f.date) && f.hour <= 24)
  }

  /** Offsets up to 14 hours are accepted, no others. */
  lemma OffsetLimit(f: Fields)
    requires InFormat(f) && IsDateTime(f.(offset := 0))
    ensures Accepted(f) <==> -14 * 60 <= f.offset <= 14 * 60
  {
  }

  /** In the first hours of year 10000, still in year 9999 in UTC. */
  predicate IsLateYear10000(f: Fields) {
    f.date == Date(MAXYEAR + 1, 1, 1) && f.offset * 60 > f.hour * 3600 + f.minute * 60 + f.second
  }

  /** The texts that are read as another instant: the end of 9999-12-31 given as 24:00:00 east of Greenwich,
      the hours of year 10000 that belong to 9999 in UTC when the minutes of the offset exceed those of
      the time (no hour is carried), and the years beyond 32 bits, which are all taken for the end of 9999 in
      the given zone. */
  predicate Misread(f: Fields) {
    || (f.hour == 24 && f.date == Date(MAXYEAR, 12, 31) && f.offset > 0)
    || (IsLateYear10000(f) && f.minute < f.offset % 60)
    || (!IsInt32(f.date.year) && (f.date.year < 0 || f.offset > 0))
  }

  lemma EpochDay(d: Date)
    requires d == Date(1601, 1, 1)
    ensures IsDate(d) && Ordinal(d) == EPOCH_DAY
  {
  }

  lemma FirstDay(d: Date)
    requires d == Date(MINYEAR, 1, 1)
    ensures IsDate(d) && Ordinal(d) == 1
  {
  }

  lemma LastDay(d: Date)
    requires d == Date(MAXYEAR, 12, 31)
    ensures IsDate(d) && Ordinal(d) == DaysBeforeYear(d.year + 1)
    ensures (Ordinal(d) - EPOCH_DAY) * 86400 + 86399 == LAST_SECOND
  {
    DaysBeforeDecember(d.year);
  }

  lemma EarlyYears(f: Fields)
    requires IsDateTime(f) && f.date.year < MINYEAR
    ensures Seconds(f) < 0
  {
    OrdinalInYear(f.date);
    DaysBeforeYearGrows(f.date.year + 1, MINYEAR);
  }

  /** Past year 9999, the clamp applies unless UTC is still in that year. */
  lemma LateYears(f: Fields)
    requires IsDateTime(f) && f.date.year > MAXYEAR
    ensures Seconds(f) <= LAST_SECOND <==> IsLateYear10000(f)
    ensures IsLateYear10000(f) ==>
      Seconds(f) == LAST_SECOND + 1 + f.hour * 3600 + (f.minute - f.offset) * 60 + f.second
  {
    LastDay(Date(MAXYEAR, 12, 31));
    OrdinalInYear(f.date);
    DaysBeforeYearGrows(MAXYEAR + 1, f.date.year);
  }

  lemma HugeYears(f: Fields)
    requires IsDateTime(f) && !IsInt32(f.date.year)
    ensures if f.date.year < 0 then Seconds(f) < 0 else Seconds(f) > LAST_SECOND
  {
    if f.date.year < 0 {
      EarlyYears(f);
    } else {
      LateYears(f);
    }
  }

  /** Taking the offset off hour by hour and minute by minute is exact if and only if no hour is carried. */
  lemma OffsetTakenOff(f: Fields)
    requires IsDateTime(f) && IsLateYear10000(f)
    ensures var hour, minute := (f.hour - f.offset / 60) % 24, (f.minute - f.offset % 60) % 60;
      hour * 3600 + minute * 60 == 86400 + f.hour * 3600 + (f.minute - f.offset) * 60 <==> f.minute >= f.offset % 60
  {
    var oh, om := f.offset / 60, f.offset % 60;
    assert f.offset == oh * 60 + om && 0 <= oh <= 14 && f.hour <= oh;
    if f.minute >= om {
      assert f.hour < oh && (f.hour - oh) % 24 == f.hour - oh + 24;
    } else {
      assert (f.minute - om) % 60 == f.minute - om + 60;
      assert (f.hour - oh) % 24 == if f.hour < oh then f.hour - oh + 24 else 0;
    }
  }

  /** `parse_xml_datetime`, after the match of the format. */
  method ParseXmlDatetime(f: Fields) returns (r: Option<Fields>)
    requires InFormat(f)
    ensures r.Some? <==> Accepted(f)
    ensures r.Some? ==> IsHeld(r.value) && r.value.fraction == f.fraction
    ensures IsDateTime(f) ==> r.Some? && (Clamp(Seconds(r.value)) == Clamp(Seconds(f)) <==> !Misread(f))
  {
    hide Ordinal, IsLeap;
    LastDay(Date(MAXYEAR, 12, 31));
    FirstDay(Date(MINYEAR, 1, 1));
    var values := f;
    var extraHour := false;
    if values.hour == 24 {
      if f.fraction != 0.0 || values.minute != 0 || values.second != 0 {
        return None;
      }
      values := values.(hour := 23);
      extraHour := true;
    }
    if !OffsetAllowed(values) {
      return None;
    }
    if !IsInt32(values.date.year) {
      if IsDateTime(f) {
        HugeYears(f);
      }
      return Some(values.(date := Date(MAXYEAR, 12, 31), hour := 23, minute := 59, second := 59));
    } else if IsHeld(values) {
      if !extraHour {
        return Some(values);
      } else if values.date == Date(MAXYEAR, 12, 31) {
        return Some(values.(minute := 59, second := 59));
      } else {
        OrdinalOfNext(values.date);
        return Some(values.(date := Next(values.date), hour := 0));
      }
    } else if values.date.year > MAXYEAR {
      if IsDateTime(f) {
        LateYears(f);
      }
      if values.date == Date(MAXYEAR + 1, 1, 1)
         && values.offset * 60 > values.hour * 3600 + values.minute * 60 + values.second {
        if IsDateTime(f) {
          OffsetTakenOff(f);
        }
        return Some(values.(
          date := Date(MAXYEAR, 12, 31),
          hour := (values.hour - values.offset / 60) % 24,
          minute := (values.minute - values.offset % 60) % 60,
          offset := 0));
      }
      return Some(Fields(Date(MAXYEAR, 12, 31), 23, 59, 59, f.fraction, 0));
    } else if values.date.year < MINYEAR {
      if IsDateTime(f) {
        EarlyYears(f);
      }
      return Some(Fields(Date(MINYEAR, 1, 1), 0, 0, 0, f.fraction, 0));
    } else {
      return None;
    }
  }

  // ----- Encoding -----

  const TICKS: int := 10000000
  const MAX_INT64: int := 9223372036854775807

  /** The standard's encoding of an instant, in seconds since 1601: 0 up to 1601, the largest 64-bit integer
      from 9999-12-31T23:59:59Z on, and the whole number of 100 ns in between. */
  function Standard(instant: real): int {
    if instant <= 0.0 then 0
    else if instant >= LAST_SECOND as real then MAX_INT64
    else (instant * TICKS as real).Floor
  }

  /** `generate_datetime_str`, on the second and the fraction that were read. */
  function Encode(seconds: int, fraction: real): (ticks: int)
    requires 0.0 <= fraction < 1.0
    ensures 0 <= ticks <= MAX_INT64
    ensures 0 < seconds < LAST_SECOND ==> seconds * TICKS <= ticks < (seconds + 1) * TICKS
  {
    if seconds <= 0 then 0
    else if seconds >= LAST_SECOND then MAX_INT64
    else seconds * TICKS + (fraction * TICKS as real).Floor
  }

  lemma FloorOfSum(n: int, x: real)
    ensures (n as real + x).Floor == n + x.Floor
  {
  }

  /** The encoding is the standard's, except in the first second of 1601: the comparison leaves out the
      fraction. */
  lemma EncodeStandardIff(seconds: int, fraction: real)
    requires 0.0 <= fraction < 1.0
    ensures Encode(seconds, fraction) == Standard(seconds as real + fraction)
      <==> !(seconds == 0 && fraction * TICKS as real >= 1.0)
  {
    FloorOfSum(seconds * TICKS, fraction * TICKS as real);
    assert (seconds as real + fraction) * TICKS as real == (seconds * TICKS) as real + fraction * TICKS as real;
  }

  lemma FirstSecondDiffers()
    ensures Encode(0, 0.5) == 0 && Standard(0.5) == 5000000
  {
  }

  /** Later instants never get smaller encodings. */
  lemma EncodeMonotone(s: int, x: real, t: int, y: real)
    requires 0.0 <= x < 1.0 && 0.0 <= y < 1.0 && s as real + x <= t as real + y
    ensures Encode(s, x) <= Encode(t, y)
  {
    assert s <= t;
    if s == t {
      assert x * TICKS as real <= y * TICKS as real;
    } else if 0 < s && t < LAST_SECOND {
      assert (s + 1) * TICKS <= t * TICKS;
    }
  }

  lemma EncodeClamped(seconds: int, fraction: real)
    requires 0.0 <= fraction < 1.0
    ensures Encode(Clamp(seconds), fraction) == Encode(seconds, fraction)
  {
  }

  /** `generate_datetime_str`. A misread text never gets the standard's encoding of its instant. */
  method GenerateDatetime(f: Fields) returns (r: Option<int>)
    requires InFormat(f)
    ensures r.Some? <==> Accepted(f)
    ensures r.Some? ==> 0 <= r.value <= MAX_INT64
    ensures IsDateTime(f) ==> r.Some?
    ensures IsDateTime(f) && !Misread(f) ==> r.value == Encode(Seconds(f), f.fraction)
    ensures IsDateTime(f) ==>
      (r.value == Standard(Seconds(f) as real + f.fraction)
       <==> !Misread(f) && !(Seconds(f) == 0 && f.fraction * TICKS as real >= 1.0))
  {
    hide Seconds, Standard, IsDate, Misread;
    var read := ParseXmlDatetime(f);
    if read.None? {
      return None;
    }
    var seconds, fraction := Seconds(read.value), read.value.fraction;
    r := Some(Encode(seconds, fraction));
    if IsDateTime(f) {
      EncodeClamped(seconds, fraction);
      EncodeClamped(Seconds(f), fraction);
      EncodeStandardIff(Seconds(f), fraction);
      if Misread(f) {
        MisreadElsewhere(f);
        EncodeInjective(seconds, Seconds(f), fraction);
      }
    }
  }

  /** A misread text does not denote an instant of the first second of 1601. */
  lemma MisreadElsewhere(f: Fields)
    requires IsDateTime(f) && Misread(f)
    ensures Seconds(f) != 0
  {
    hide Ordinal, IsLeap;
    LastDay(Date(MAXYEAR, 12, 31));
    if !IsInt32(f.date.year) {
      HugeYears(f);
    } else if f.date.year > MAXYEAR {
      LateYears(f);
    }
  }

  /** Two seconds with the same encoding are the same, up to the clamps. */
  lemma EncodeInjective(s: int, t: int, fraction: real)
    requires 0.0 <= fraction < 1.0
    ensures Encode(s, fraction) == Encode(t, fraction) <==> Clamp(s) == Clamp(t)
  {
  }

  lemma MisreadExamples(f: Fields, g: Fields)
    requires f == Fields(Date(10000, 1, 1), 1, 0, 0, 0.0, 90)
    requires g == Fields(Date(9999, 12, 31), 24, 0, 0, 0.0, 60)
    ensures IsDateTime(f) && Misread(f) && Seconds(f) == LAST_SECOND + 1 - 1800
    ensures IsDateTime(g) && Misread(g) && Seconds(g) == LAST_SECOND + 1 - 3600
  {
    LateYears(f);
    LastDay(g.date);
  }

  /** The first year below 32 bits is read as the end of 9999, and the first above, east of Greenwich, as an hour
      before it. */
  lemma HugeYearExamples(f: Fields, g: Fields)
    requires f == Fields(Date(-2147483649, 1, 1), 0, 0, 0, 0.0, 0)
    requires g == Fields(Date(2147483648, 1, 1), 0, 0, 0, 0.0, 60)
    ensures IsDateTime(f) && Misread(f) && Standard(Seconds(f) as real + f.fraction) == 0
    ensures IsDateTime(g) && Misread(g) && Standard(Seconds(g) as real + g.fraction) == MAX_INT64
  {
    HugeYears(f);
    HugeYears(g);
  }
}

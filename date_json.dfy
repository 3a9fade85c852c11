/** `Date.prototype.toJSON` as ECMA-262 defines it: `null` for an invalid
    date, otherwise `toISOString()`, the form `YYYY-MM-DDTHH:mm:ss.sssZ`
    (years outside 0..9999 as a sign and six digits). The calendar is the
    proleptic Gregorian one with a year 0. */
module DateJson {
  import opened JsValue

  /** Milliseconds in a day; products and quotients below write it out as
      86400000 so that the arithmetic about them stays linear. */
  const MsPerDay: int := 86400000
  /** The largest magnitude of a valid time value (ECMA-262, "Time Values and Time Range"). */
  const MaxTime: int := 8640000000000000

  /** `new Date(d)` on a Date `d`: the time value is copied through TimeClip. */
  function TimeClip(t: TimeValue): (r: TimeValue)
    ensures r.Time? ==> -MaxTime <= r.ms <= MaxTime
    ensures r.Time? ==> t == r
    ensures t.Time? && -MaxTime <= t.ms <= MaxTime ==> r == t
  {
    match t
    case NaN => NaN
    case Time(ms) => if -MaxTime <= ms <= MaxTime then t else NaN
  }

  datatype Civil = Civil(year: int, month: int, day: int)

  /** Days from the start of a 400-year era (a 1 March) to the start of its
      year `yoe`: 365 per year plus one for each leap day passed. */
  function DaysBeforeYear(yoe: int): int {
    365 * yoe + yoe / 4 - yoe / 100
  }

  /** Days from 1 March to the start of month `mp` (0 is March, 11 is February). */
  function DaysBeforeMonth(mp: int): int {
    (153 * mp + 2) / 5
  }

  /** Leap years of the proleptic Gregorian calendar. */
  predicate IsLeap(y: int) {
    y % 4 == 0 && (y % 100 != 0 || y % 400 == 0)
  }

  /** The number of days of month `m` (1 is January) in year `y`. */
  function DaysInMonth(y: int, m: int): int {
    if m == 2 then (if IsLeap(y) then 29 else 28)
    else if m == 4 || m == 6 || m == 9 || m == 11 then 30
    else 31
  }

  /** Splits a day of an era into the year of the era and the day of that year. */
  function YearOfEra(doe: int): (r: (int, int))
    requires 0 <= doe < 146097
    ensures 0 <= r.0 < 400 && 0 <= r.1 <= 365
    ensures DaysBeforeYear(r.0) + r.1 == doe
    ensures r.1 == 365 ==> IsLeap(r.0 + 1)
  {
    var century := if doe / 36524 < 3 then doe / 36524 else 3;
    var doc := doe - century * 36524;
    assert 0 <= doc <= 36524;
    var quad := doc / 1461;
    var doq := doc - quad * 1461;
    assert 0 <= quad <= 24 && 0 <= doq < 1461;
    var yoq := if doq / 365 < 3 then doq / 365 else 3;
    var yoe := century * 100 + quad * 4 + yoq;
    assert yoe / 4 == century * 25 + quad && yoe / 100 == century;
    assert doq - yoq * 365 == 365 ==> quad < 24 || century == 3;
    LeapYearOfEra(century, quad);
    (yoe, doq - yoq * 365)
  }

  /** The year after the last year of a four-year cycle is a leap year,
      unless it ends a century other than the fourth of the era. */
  lemma LeapYearOfEra(century: int, quad: int)
    requires 0 <= century <= 3 && 0 <= quad <= 24
    ensures quad < 24 || century == 3 ==> IsLeap(century * 100 + quad * 4 + 4)
  {
    var year := century * 100 + quad * 4 + 4;
    DivModUnique(year, 4, century * 25 + quad + 1, 0);
    if quad < 24 {
      DivModUnique(year, 100, century, quad * 4 + 4);
    } else if century == 3 {
      DivModUnique(year, 400, 1, 0);
    }
  }

  /** Splits a day of a March-based year into the month index and the day of the month. */
  function MonthOfYear(doy: int): (r: (int, int))
    requires 0 <= doy <= 365
    ensures 0 <= r.0 <= 11 && 1 <= r.1 <= 31
    ensures DaysBeforeMonth(r.0) + r.1 - 1 == doy
    ensures r.0 < 11 ==> doy < DaysBeforeMonth(r.0 + 1)
  {
    var mp := (5 * doy + 2) / 153;
    (mp, doy - DaysBeforeMonth(mp) + 1)
  }

  /** The calendar date of a day number (day 0 is 1970-01-01). */
  function CivilFromDays(z: int): (c: Civil)
    ensures 1 <= c.month <= 12 && 1 <= c.day <= DaysInMonth(c.year, c.month)
    ensures -100000000 <= z <= 100000000 ==> -1000000 < c.year < 1000000
  {
    var (era, doe) := DayOfEra(z);
    var (yoe, doy) := YearOfEra(doe);
    var (mp, d) := MonthOfYear(doy);
    DayWithinMonth(era, yoe, doy);
    CivilOfEra(era, yoe, mp, d)
  }

  /** The day of a date built from a day of the year lies within its month. */
  lemma DayWithinMonth(era: int, yoe: int, doy: int)
    requires 0 <= yoe < 400 && 0 <= doy <= 365 && (doy == 365 ==> IsLeap(yoe + 1))
    ensures var (mp, d) := MonthOfYear(doy);
      var c := CivilOfEra(era, yoe, mp, d);
      c.day <= DaysInMonth(c.year, c.month)
  {
    var (mp, d) := MonthOfYear(doy);
    var c := CivilOfEra(era, yoe, mp, d);
    if mp == 11 {
      assert c.year == era * 400 + yoe + 1 && c.month == 2;
      if doy == 365 {
        LeapShift(era, yoe + 1);
      }
    } else {
      assert d <= DaysBeforeMonth(mp + 1) - DaysBeforeMonth(mp);
    }
  }

  /** Leap years repeat every 400 years. */
  lemma LeapShift(era: int, k: int)
    ensures IsLeap(era * 400 + k) == IsLeap(k)
  {
    var n := era * 400 + k;
    DivModUnique(n, 4, era * 100 + k / 4, k % 4);
    DivModUnique(n, 100, era * 4 + k / 100, k % 100);
    DivModUnique(n, 400, era + k / 400, k % 400);
  }

  /** Splits a day number into a 400-year era and the day of that era. */
  function DayOfEra(z: int): (r: (int, int))
    ensures 0 <= r.1 < 146097
    ensures r.0 * 146097 + r.1 == z + 719468
  {
    var era := (z + 719468) / 146097;
    (era, z + 719468 - era * 146097)
  }

  /** The date in year `yoe` of era `era`, month index `mp` (0 is March), day `d`. */
  function CivilOfEra(era: int, yoe: int, mp: int, d: int): (c: Civil)
    requires 0 <= mp <= 11
    ensures 1 <= c.month <= 12
  {
    var y := era * 400 + yoe;
    var m := if mp < 10 then mp + 3 else mp - 9;
    Civil(if m <= 2 then y + 1 else y, m, d)
  }

  /** The day number of a calendar date; the partner of CivilFromDays. */
  function DaysFromCivil(c: Civil): int {
    var y := if c.month <= 2 then c.year - 1 else c.year;
    var era := y / 400;
    var yoe := y - era * 400;
    var mp := if c.month > 2 then c.month - 3 else c.month + 9;
    era * 146097 + DaysBeforeYear(yoe) + DaysBeforeMonth(mp) + c.day - 1 - 719468
  }

  /** Converting a day number to a calendar date and back is the identity. */
  lemma CivilRoundTrip(z: int)
    ensures DaysFromCivil(CivilFromDays(z)) == z
  {
    var (era, doe) := DayOfEra(z);
    var (yoe, doy) := YearOfEra(doe);
    var (mp, d) := MonthOfYear(doy);
    DaysFromCivilOfEra(era, yoe, mp, d);
  }

  /** A date whose month is one of the year's and whose day is one of that month's. */
  predicate ValidCivil(c: Civil) {
    1 <= c.month <= 12 && 1 <= c.day <= DaysInMonth(c.year, c.month)
  }

  /** Converting a valid date to its day number and back gives the date. */
  lemma CivilInverse(c: Civil)
    requires ValidCivil(c)
    ensures CivilFromDays(DaysFromCivil(c)) == c
  {
    var y := if c.month <= 2 then c.year - 1 else c.year;
    var era := y / 400;
    var yoe := y - era * 400;
    var mp := if c.month > 2 then c.month - 3 else c.month + 9;
    var doy := DaysBeforeMonth(mp) + c.day - 1;
    var doe := DaysBeforeYear(yoe) + doy;
    DayOfYearBound(mp, c.day, doy);
    if doy == 365 {
      LeapShift(era, yoe + 1);
    }
    DayOfEraSplit(yoe, doy);
    var z := DaysFromCivil(c);
    assert z + 719468 == era * 146097 + doe;
    DayOfEraOf(z, era, doe);
    MonthSplitUnique(mp, c.day, doy);
    CivilFromParts(z, era, doe, yoe, doy, mp, c.day);
    assert CivilOfEra(era, yoe, mp, c.day) == c;
  }

  lemma DayOfEraOf(z: int, era: int, doe: int)
    requires z + 719468 == era * 146097 + doe && 0 <= doe < 146097
    ensures DayOfEra(z) == (era, doe)
  {
    DivModUnique(z + 719468, 146097, era, doe);
  }

  lemma CivilFromParts(z: int, era: int, doe: int, yoe: int, doy: int, mp: int, d: int)
    requires DayOfEra(z) == (era, doe) && 0 <= doe < 146097
    requires YearOfEra(doe) == (yoe, doy) && 0 <= doy <= 365
    requires MonthOfYear(doy) == (mp, d) && 0 <= mp <= 11
    ensures CivilFromDays(z) == CivilOfEra(era, yoe, mp, d)
  {
  }

  /** The day of the year of day `d` of month index `mp`, when `d` lies within the month. */
  lemma DayOfYearBound(mp: int, d: int, doy: int)
    requires 0 <= mp <= 11 && 1 <= d <= 31 && doy == DaysBeforeMonth(mp) + d - 1
    requires mp == 11 ==> d <= 29
    requires mp == 1 || mp == 3 || mp == 6 || mp == 8 ==> d <= 30
    ensures 0 <= doy <= 365 && (mp < 11 ==> doy < DaysBeforeMonth(mp + 1))
    ensures doy == 365 ==> mp == 11 && d == 29
  {
  }

  /** Day `doy` of year `yoe` of an era is a day of the era, which splits
      back into that year and day. */
  lemma DayOfEraSplit(yoe: int, doy: int)
    requires 0 <= yoe < 400 && 0 <= doy <= 365 && (doy == 365 ==> IsLeap(yoe + 1))
    ensures var doe := DaysBeforeYear(yoe) + doy;
      0 <= doe < 146097 && YearOfEra(doe) == (yoe, doy)
  {
    var doe := DaysBeforeYear(yoe) + doy;
    assert 0 <= doe < 146097;
    YearSplitUnique(YearOfEra(doe).0, YearOfEra(doe).1, yoe, doy);
  }

  /** Each day of an era has one year of the era and one day of that year. */
  lemma YearSplitUnique(a: int, b: int, a2: int, b2: int)
    requires 0 <= a < 400 && 0 <= b <= 365 && (b == 365 ==> IsLeap(a + 1))
    requires 0 <= a2 < 400 && 0 <= b2 <= 365 && (b2 == 365 ==> IsLeap(a2 + 1))
    requires DaysBeforeYear(a) + b == DaysBeforeYear(a2) + b2
    ensures a == a2 && b == b2
  {
    if a < a2 {
      YearsBetween(a, a2);
    } else if a2 < a {
      YearsBetween(a2, a);
    }
  }

  /** A later year of the era starts after the whole of an earlier one. */
  lemma YearsBetween(a: int, a2: int)
    requires 0 <= a < a2 < 400
    ensures DaysBeforeYear(a2) >= DaysBeforeYear(a) + (if IsLeap(a + 1) then 366 else 365)
  {
  }

  /** Each day of a March-based year has one month index and one day of that month. */
  lemma MonthSplitUnique(mp: int, d: int, doy: int)
    requires 0 <= mp <= 11 && 1 <= d && DaysBeforeMonth(mp) + d - 1 == doy && doy <= 365
    requires mp < 11 ==> doy < DaysBeforeMonth(mp + 1)
    ensures MonthOfYear(doy) == (mp, d)
  {
    DivModUnique(5 * doy + 2, 153, mp, 5 * doy + 2 - 153 * mp);
  }

  lemma DaysFromCivilOfEra(era: int, yoe: int, mp: int, d: int)
    requires 0 <= yoe < 400 && 0 <= mp <= 11
    ensures DaysFromCivil(CivilOfEra(era, yoe, mp, d))
        == era * 146097 + DaysBeforeYear(yoe) + DaysBeforeMonth(mp) + d - 1 - 719468
  {
    var y := era * 400 + yoe;
    assert y / 400 == era;
  }

  function Pow10(w: nat): (p: nat)
    ensures p > 0
  {
    if w == 0 then 1 else 10 * Pow10(w - 1)
  }

  function DigitValue(c: char): int {
    c as int - '0' as int
  }

  /** The number a string of decimal digits denotes. */
  function DecimalValue(s: string): int {
    if s == [] then 0 else DecimalValue(s[..|s| - 1]) * 10 + DigitValue(s[|s| - 1])
  }

  lemma MulAtLeast(a: int, m: int)
    requires a >= 1 && m > 0
    ensures a * m >= m
  {
    assert (a - 1) * m >= 0;
  }

  /** Quotient and remainder are unique. */
  lemma DivModUnique(n: int, m: int, k: int, x: int)
    requires m > 0 && n == k * m + x && 0 <= x < m
    ensures n % m == x && n / m == k
  {
    var q, r := n / m, n % m;
    assert (q - k) * m == x - r;
    if q > k {
      MulAtLeast(q - k, m);
    } else if q < k {
      MulAtLeast(k - q, m);
    }
  }

  /** Every character of `s` is a decimal digit. */
  predicate AllDigits(s: string) {
    forall i :: 0 <= i < |s| ==> '0' <= s[i] <= '9'
  }

  /** `n` in decimal with exactly `width` digits: its last `width` digits,
      zero-padded on the left. */
  function Fixed(n: nat, width: nat): (s: string)
    ensures |s| == width && AllDigits(s)
    ensures n < Pow10(width) ==> DecimalValue(s) == n
  {
    if width == 0 then ""
    else
      var s := Fixed(n / 10, width - 1) + [('0' as int + n % 10) as char];
      assert s[..|s| - 1] == Fixed(n / 10, width - 1);
      s
  }

  /** A string of digits is the fixed-width form of the number it denotes. */
  lemma {:induction false} FixedOfDigits(s: string)
    requires AllDigits(s)
    ensures 0 <= DecimalValue(s) < Pow10(|s|)
    ensures Fixed(DecimalValue(s), |s|) == s
  {
    if s != [] {
      var p := s[..|s| - 1];
      assert AllDigits(p);
      FixedOfDigits(p);
      var n, digit := DecimalValue(s), DigitValue(s[|s| - 1]);
      DivModUnique(n, 10, DecimalValue(p), digit);
      assert s == p + [s[|s| - 1]];
    }
  }

  lemma Pow10Values()
    ensures Pow10(2) == 100 && Pow10(3) == 1000 && Pow10(4) == 10000 && Pow10(6) == 1000000
  {
    assert Pow10(1) == 10;
    assert Pow10(2) == 100;
    assert Pow10(3) == 1000;
    assert Pow10(4) == 10000;
    assert Pow10(5) == 100000;
  }

  /** The year field of an ISO string: four digits for years 0 to 9999,
      otherwise a sign and six digits. */
  function YearString(y: int): (s: string)
    requires -1000000 < y < 1000000
    ensures 0 <= y <= 9999 ==> |s| == 4 && AllDigits(s) && DecimalValue(s) == y
    ensures y < 0 ==> |s| == 7 && s[0] == '-' && AllDigits(s[1..]) && DecimalValue(s[1..]) == -y
    ensures y > 9999 ==> |s| == 7 && s[0] == '+' && AllDigits(s[1..]) && DecimalValue(s[1..]) == y
    ensures ValidYearField(s)
  {
    Pow10Values();
    if 0 <= y <= 9999 then
      Fixed(y, 4)
    else
      var magnitude := if y < 0 then -y else y;
      var sign := if y < 0 then '-' else '+';
      var digits := Fixed(magnitude, 6);
      assert ([sign] + digits)[1..] == digits;
      [sign] + digits
  }

  /** The year fields `toISOString` writes: four digits, or `-` and six
      digits denoting a positive number, or `+` and six digits denoting a
      number above 9999. */
  predicate ValidYearField(ys: string) {
    || (|ys| == 4 && AllDigits(ys))
    || (|ys| == 7 && AllDigits(ys[1..])
        && ((ys[0] == '-' && DecimalValue(ys[1..]) > 0) || (ys[0] == '+' && DecimalValue(ys[1..]) > 9999)))
  }

  /** Reads a year field back; the partner of YearString. */
  function ParseYear(s: string): int {
    if |s| > 0 && s[0] == '-' then -DecimalValue(s[1..])
    else if |s| > 0 && s[0] == '+' then DecimalValue(s[1..])
    else DecimalValue(s)
  }

  /** A valid year field is the one YearString writes for the year it denotes. */
  lemma YearFieldCanonical(ys: string)
    requires ValidYearField(ys)
    ensures -1000000 < ParseYear(ys) < 1000000 && YearString(ParseYear(ys)) == ys
  {
    Pow10Values();
    if |ys| == 4 {
      FixedOfDigits(ys);
    } else {
      FixedOfDigits(ys[1..]);
      assert ys == [ys[0]] + ys[1..];
    }
  }

  lemma YearRoundTrip(y: int)
    requires -1000000 < y < 1000000
    ensures ParseYear(YearString(y)) == y
  {
  }

  /** The part of an ISO string after the year: `-MM-DDTHH:mm:ss.sssZ`. */
  function IsoTail(month: nat, day: nat, msOfDay: nat): (f: string)
    ensures |f| == 20
  {
    TailOf(Fixed(month, 2), Fixed(day, 2), Fixed(msOfDay / 3600000, 2), Fixed(msOfDay / 60000 % 60, 2),
           Fixed(msOfDay / 1000 % 60, 2), Fixed(msOfDay % 1000, 3))
  }

  /** `-MM-DDTHH:mm:ss.sssZ` from its digit fields. */
  function TailOf(mo: string, d: string, h: string, mi: string, se: string, ms: string): string
    requires |mo| == 2 && |d| == 2 && |h| == 2 && |mi| == 2 && |se| == 2 && |ms| == 3
  {
    ['-', mo[0], mo[1], '-', d[0], d[1], 'T', h[0], h[1], ':', mi[0], mi[1],
     ':', se[0], se[1], '.', ms[0], ms[1], ms[2], 'Z']
  }

  lemma TailOfFields(mo: string, d: string, h: string, mi: string, se: string, ms: string)
    requires |mo| == 2 && |d| == 2 && |h| == 2 && |mi| == 2 && |se| == 2 && |ms| == 3
    ensures var f := TailOf(mo, d, h, mi, se, ms);
      && |f| == 20 && TailSeparators(f)
      && f[1..3] == mo && f[4..6] == d && f[7..9] == h
      && f[10..12] == mi && f[13..15] == se && f[16..19] == ms
  {
    var f := TailOf(mo, d, h, mi, se, ms);
    assert f[1..3] == [mo[0], mo[1]] == mo;
    assert f[4..6] == [d[0], d[1]] == d;
    assert f[7..9] == [h[0], h[1]] == h;
    assert f[10..12] == [mi[0], mi[1]] == mi;
    assert f[13..15] == [se[0], se[1]] == se;
    assert f[16..19] == [ms[0], ms[1], ms[2]] == ms;
  }

  /** The separators of the part after the year are in place. */
  predicate TailSeparators(f: string)
    requires |f| == 20
  {
    f[0] == '-' && f[3] == '-' && f[6] == 'T' && f[9] == ':' && f[12] == ':' && f[15] == '.' && f[19] == 'Z'
  }

  /** Reads the part after the year back into month, day and millisecond
      of the day; the partner of IsoTail. */
  function ParseTail(f: string): Option<(int, int, int)> {
    if |f| != 20 || !TailSeparators(f) then None
    else Some((DecimalValue(f[1..3]), DecimalValue(f[4..6]),
               DecimalValue(f[7..9]) * 3600000 + DecimalValue(f[10..12]) * 60000
               + DecimalValue(f[13..15]) * 1000 + DecimalValue(f[16..19])))
  }

  /** The part after the year as `toISOString` writes it for year `year`:
      digit fields holding a month of the year, a day of that month, and an
      hour, minute and second of the day. */
  predicate ValidTail(year: int, f: string) {
    && |f| == 20 && TailSeparators(f)
    && AllDigits(f[1..3]) && AllDigits(f[4..6]) && AllDigits(f[7..9])
    && AllDigits(f[10..12]) && AllDigits(f[13..15]) && AllDigits(f[16..19])
    && 1 <= DecimalValue(f[1..3]) <= 12
    && 1 <= DecimalValue(f[4..6]) <= DaysInMonth(year, DecimalValue(f[1..3]))
    && DecimalValue(f[7..9]) < 24 && DecimalValue(f[10..12]) < 60 && DecimalValue(f[13..15]) < 60
  }

  /** The strings `toISOString` can return: a valid year field followed by a
      valid part after the year. */
  predicate ValidIso(s: string) {
    var yearLength := YearLength(s);
    |s| == yearLength + 20 && ValidYearField(s[..yearLength]) && ValidTail(ParseYear(s[..yearLength]), s[yearLength..])
  }

  /** A millisecond of the day is its hours, minutes, seconds and milliseconds. */
  lemma TimeOfDay(m: int)
    requires 0 <= m < MsPerDay
    ensures m / 3600000 < 24
    ensures m == m / 3600000 * 3600000 + m / 60000 % 60 * 60000 + m / 1000 % 60 * 1000 + m % 1000
  {
  }

  /** Where each field of the part after the year sits. */
  lemma IsoTailFields(month: nat, day: nat, msOfDay: nat)
    ensures var f := IsoTail(month, day, msOfDay);
      && TailSeparators(f)
      && f[1..3] == Fixed(month, 2) && f[4..6] == Fixed(day, 2)
      && f[7..9] == Fixed(msOfDay / 3600000, 2) && f[10..12] == Fixed(msOfDay / 60000 % 60, 2)
      && f[13..15] == Fixed(msOfDay / 1000 % 60, 2) && f[16..19] == Fixed(msOfDay % 1000, 3)
  {
    TailOfFields(Fixed(month, 2), Fixed(day, 2), Fixed(msOfDay / 3600000, 2), Fixed(msOfDay / 60000 % 60, 2),
                 Fixed(msOfDay / 1000 % 60, 2), Fixed(msOfDay % 1000, 3));
  }

  lemma TailRoundTrip(month: nat, day: nat, msOfDay: nat)
    requires month < 100 && day < 100 && msOfDay < MsPerDay
    ensures ParseTail(IsoTail(month, day, msOfDay)) == Some((month, day, msOfDay))
  {
    var f := IsoTail(month, day, msOfDay);
    var hours, minutes := msOfDay / 3600000, msOfDay / 60000 % 60;
    var seconds, millis := msOfDay / 1000 % 60, msOfDay % 1000;
    IsoTailFields(month, day, msOfDay);
    TimeOfDay(msOfDay);
    Pow10Values();
    ParseTailFields(f, month, day, hours, minutes, seconds, millis, msOfDay);
  }

  /** The part after the year of a valid date and time of day is valid. */
  lemma TailValid(year: int, month: nat, day: nat, msOfDay: nat)
    requires 1 <= month <= 12 && 1 <= day <= DaysInMonth(year, month) && msOfDay < MsPerDay
    ensures ValidTail(year, IsoTail(month, day, msOfDay))
  {
    IsoTailFields(month, day, msOfDay);
    TimeOfDay(msOfDay);
    Pow10Values();
  }

  /** Hours, minutes, seconds and milliseconds in range make one millisecond
      of the day, which splits back into them. */
  lemma TimeOfDayUnique(hours: int, minutes: int, seconds: int, millis: int, m: int)
    requires 0 <= hours < 24 && 0 <= minutes < 60 && 0 <= seconds < 60 && 0 <= millis < 1000
    requires m == hours * 3600000 + minutes * 60000 + seconds * 1000 + millis
    ensures 0 <= m < MsPerDay
    ensures m / 3600000 == hours && m / 60000 % 60 == minutes && m / 1000 % 60 == seconds && m % 1000 == millis
  {
    DivModUnique(m, 3600000, hours, minutes * 60000 + seconds * 1000 + millis);
    DivModUnique(m, 60000, hours * 60 + minutes, seconds * 1000 + millis);
    DivModUnique(hours * 60 + minutes, 60, hours, minutes);
    DivModUnique(m, 1000, hours * 3600 + minutes * 60 + seconds, millis);
    DivModUnique(hours * 3600 + minutes * 60 + seconds, 60, hours * 60 + minutes, seconds);
  }

  /** A string with the separators in place is the display of its fields. */
  lemma TailOfSlices(f: string)
    requires |f| == 20 && TailSeparators(f)
    ensures TailOf(f[1..3], f[4..6], f[7..9], f[10..12], f[13..15], f[16..19]) == f
  {
  }

  /** Two strings of digits of one length that denote the same number are equal. */
  lemma DigitsInjective(a: string, b: string)
    requires |a| == |b| && AllDigits(a) && AllDigits(b) && DecimalValue(a) == DecimalValue(b)
    ensures a == b
  {
    FixedOfDigits(a);
    FixedOfDigits(b);
  }

  /** A valid part after the year reads back as a month of the year, a day of
      that month and a millisecond of the day. */
  lemma TailParsed(year: int, f: string)
    requires ValidTail(year, f)
    ensures ParseTail(f).Some?
    ensures var (month, day, msOfDay) := ParseTail(f).value;
      && 1 <= month <= 12 && 1 <= day <= DaysInMonth(year, month) && 0 <= msOfDay < MsPerDay
  {
    var hours, minutes := DecimalValue(f[7..9]), DecimalValue(f[10..12]);
    var seconds, millis := DecimalValue(f[13..15]), DecimalValue(f[16..19]);
    FixedOfDigits(f[7..9]);
    FixedOfDigits(f[10..12]);
    FixedOfDigits(f[13..15]);
    FixedOfDigits(f[16..19]);
    Pow10Values();
    TimeOfDayUnique(hours, minutes, seconds, millis, hours * 3600000 + minutes * 60000 + seconds * 1000 + millis);
  }

  /** Two valid parts after the year that read back alike are equal. */
  lemma TailInjective(year1: int, f1: string, year2: int, f2: string)
    requires ValidTail(year1, f1) && ValidTail(year2, f2) && ParseTail(f1) == ParseTail(f2)
    ensures f1 == f2
  {
    TimeFieldsInjective(year1, f1, year2, f2);
    DigitsInjective(f1[1..3], f2[1..3]);
    DigitsInjective(f1[4..6], f2[4..6]);
    DigitsInjective(f1[7..9], f2[7..9]);
    DigitsInjective(f1[10..12], f2[10..12]);
    DigitsInjective(f1[13..15], f2[13..15]);
    DigitsInjective(f1[16..19], f2[16..19]);
    TailOfSlices(f1);
    TailOfSlices(f2);
  }

  /** Two valid parts after the year with the same millisecond of the day
      have the same hour, minute, second and millisecond fields. */
  lemma TimeFieldsInjective(year1: int, f1: string, year2: int, f2: string)
    requires ValidTail(year1, f1) && ValidTail(year2, f2) && ParseTail(f1) == ParseTail(f2)
    ensures DecimalValue(f1[7..9]) == DecimalValue(f2[7..9]) && DecimalValue(f1[10..12]) == DecimalValue(f2[10..12])
    ensures DecimalValue(f1[13..15]) == DecimalValue(f2[13..15]) && DecimalValue(f1[16..19]) == DecimalValue(f2[16..19])
  {
    var m := ParseTail(f1).value.2;
    TimeFieldsOf(year1, f1, m);
    TimeFieldsOf(year2, f2, m);
  }

  /** The time fields of a valid part after the year are those of the
      millisecond of the day it reads back as. */
  lemma TimeFieldsOf(year: int, f: string, m: int)
    requires ValidTail(year, f) && ParseTail(f).Some? && ParseTail(f).value.2 == m
    ensures DecimalValue(f[7..9]) == m / 3600000 && DecimalValue(f[10..12]) == m / 60000 % 60
    ensures DecimalValue(f[13..15]) == m / 1000 % 60 && DecimalValue(f[16..19]) == m % 1000
  {
    FixedOfDigits(f[7..9]);
    FixedOfDigits(f[10..12]);
    FixedOfDigits(f[13..15]);
    FixedOfDigits(f[16..19]);
    Pow10Values();
    TimeOfDayUnique(DecimalValue(f[7..9]), DecimalValue(f[10..12]), DecimalValue(f[13..15]), DecimalValue(f[16..19]), m);
  }

  lemma ParseTailFields(f: string, month: int, day: int, hours: int, minutes: int, seconds: int, millis: int,
                        msOfDay: int)
    requires |f| == 20 && TailSeparators(f)
    requires DecimalValue(f[1..3]) == month && DecimalValue(f[4..6]) == day
    requires DecimalValue(f[7..9]) == hours && DecimalValue(f[10..12]) == minutes
    requires DecimalValue(f[13..15]) == seconds && DecimalValue(f[16..19]) == millis
    requires hours * 3600000 + minutes * 60000 + seconds * 1000 + millis == msOfDay
    ensures ParseTail(f) == Some((month, day, msOfDay))
  {
  }

  /** `Date.prototype.toISOString` for a valid time value; its result is
      always a valid ISO string. */
  function IsoString(t: int): (s: string)
    requires -MaxTime <= t <= MaxTime
    ensures ValidIso(s)
  {
    var c := CivilFromDays(t / 86400000);
    IsoValidOfCivil(c, t % 86400000);
    YearString(c.year) + IsoTail(c.month, c.day, t % 86400000)
  }

  /** The length of the year field an ISO string starts with. */
  function YearLength(s: string): nat {
    if |s| > 0 && (s[0] == '+' || s[0] == '-') then 7 else 4
  }

  /** Reads an ISO string back into its time value; the partner of IsoString. */
  function ParseIso(s: string): Option<int> {
    var yearLength := YearLength(s);
    if |s| != yearLength + 20 then None
    else
      match ParseTail(s[yearLength..])
      case None => None
      case Some((month, day, msOfDay)) =>
        Some(DaysFromCivil(Civil(ParseYear(s[..yearLength]), month, day)) * 86400000 + msOfDay)
  }

  /** Reading a year field followed by the part after the year. */
  lemma ParseIsoFields(ys: string, f: string, c: Civil, day: int, msOfDay: int)
    requires (|ys| == 4 && ys[0] != '+' && ys[0] != '-') || (|ys| == 7 && (ys[0] == '+' || ys[0] == '-'))
    requires ParseYear(ys) == c.year && ParseTail(f) == Some((c.month, c.day, msOfDay))
    requires DaysFromCivil(c) == day
    ensures ParseIso(ys + f) == Some(day * 86400000 + msOfDay)
  {
    var s := ys + f;
    assert s[0] == ys[0] && s[..|ys|] == ys && s[|ys|..] == f;
    assert Civil(c.year, c.month, c.day) == c;
  }

  /** The ISO string of a date and a millisecond of its day reads back as
      that day's time value. */
  lemma IsoOfCivil(c: Civil, day: int, m: int)
    requires 1 <= c.month <= 12 && 1 <= c.day <= 31 && -1000000 < c.year < 1000000
    requires DaysFromCivil(c) == day && 0 <= m < MsPerDay
    ensures ParseIso(YearString(c.year) + IsoTail(c.month, c.day, m)) == Some(day * 86400000 + m)
  {
    YearRoundTrip(c.year);
    TailRoundTrip(c.month, c.day, m);
    ParseIsoFields(YearString(c.year), IsoTail(c.month, c.day, m), c, day, m);
  }

  /** A valid year field followed by a valid part after the year is a valid
      ISO string. */
  lemma IsoValidFields(ys: string, f: string)
    requires ValidYearField(ys) && ValidTail(ParseYear(ys), f)
    ensures ValidIso(ys + f)
  {
    var s := ys + f;
    assert s[0] == ys[0] && s[..|ys|] == ys && s[|ys|..] == f;
  }

  /** The ISO string of a valid date and a millisecond of its day is valid. */
  lemma IsoValidOfCivil(c: Civil, m: int)
    requires 1 <= c.month <= 12 && 1 <= c.day <= DaysInMonth(c.year, c.month) && -1000000 < c.year < 1000000
    requires 0 <= m < MsPerDay
    ensures ValidIso(YearString(c.year) + IsoTail(c.month, c.day, m))
  {
    YearRoundTrip(c.year);
    TailValid(c.year, c.month, c.day, m);
    IsoValidFields(YearString(c.year), IsoTail(c.month, c.day, m));
  }

  /** Two valid ISO strings that read back as the same time value are equal. */
  lemma IsoInjective(s1: string, s2: string)
    requires ValidIso(s1) && ValidIso(s2) && ParseIso(s1) == ParseIso(s2)
    ensures s1 == s2
  {
    var c1, m1 := IsoParts(s1);
    var c2, m2 := IsoParts(s2);
    TimeValueInjective(c1, m1, c2, m2);
    IsoFieldsInjective(s1, s2);
  }

  /** A valid date and a millisecond of its day are determined by the time
      value they make. */
  lemma TimeValueInjective(c1: Civil, m1: int, c2: Civil, m2: int)
    requires ValidCivil(c1) && ValidCivil(c2) && 0 <= m1 < MsPerDay && 0 <= m2 < MsPerDay
    requires DaysFromCivil(c1) * 86400000 + m1 == DaysFromCivil(c2) * 86400000 + m2
    ensures c1 == c2 && m1 == m2
  {
    DivModUnique(DaysFromCivil(c1) * 86400000 + m1, 86400000, DaysFromCivil(c1), m1);
    DivModUnique(DaysFromCivil(c2) * 86400000 + m2, 86400000, DaysFromCivil(c2), m2);
    CivilInverse(c1);
    CivilInverse(c2);
  }

  /** Two valid ISO strings with the same year and the same reading of the
      part after the year are equal. */
  lemma IsoFieldsInjective(s1: string, s2: string)
    requires ValidIso(s1) && ValidIso(s2)
    requires ParseYear(s1[..YearLength(s1)]) == ParseYear(s2[..YearLength(s2)])
    requires ParseTail(s1[YearLength(s1)..]) == ParseTail(s2[YearLength(s2)..])
    ensures s1 == s2
  {
    var ys1, f1 := s1[..YearLength(s1)], s1[YearLength(s1)..];
    var ys2, f2 := s2[..YearLength(s2)], s2[YearLength(s2)..];
    YearFieldCanonical(ys1);
    YearFieldCanonical(ys2);
    TailInjective(ParseYear(ys1), f1, ParseYear(ys2), f2);
    assert s1 == ys1 + f1;
    assert s2 == ys2 + f2;
  }

  /** The date and the millisecond of the day a valid ISO string denotes. */
  lemma IsoParts(s: string) returns (c: Civil, m: int)
    requires ValidIso(s)
    ensures ValidCivil(c) && 0 <= m < MsPerDay
    ensures c.year == ParseYear(s[..YearLength(s)])
    ensures ParseTail(s[YearLength(s)..]) == Some((c.month, c.day, m))
    ensures ParseIso(s) == Some(DaysFromCivil(c) * 86400000 + m)
  {
    var year, f := ParseYear(s[..YearLength(s)]), s[YearLength(s)..];
    TailParsed(year, f);
    var (month, day, msOfDay) := ParseTail(f).value;
    c, m := Civil(year, month, day), msOfDay;
  }

  /** A valid ISO string that reads back as `t` is the ISO string of `t`:
      `toISOString` has exactly one answer. */
  lemma IsoStringUnique(t: int, s: string)
    requires -MaxTime <= t <= MaxTime && ValidIso(s) && ParseIso(s) == Some(t)
    ensures s == IsoString(t)
  {
    IsoRoundTrip(t);
    IsoInjective(s, IsoString(t));
  }

  /** The ISO string of day `z` and millisecond `m` of it reads back as
      that day's time value. */
  lemma IsoOfDay(z: int, m: int)
    requires -100000000 <= z <= 100000000 && 0 <= m < MsPerDay
    ensures var c := CivilFromDays(z);
      ParseIso(YearString(c.year) + IsoTail(c.month, c.day, m)) == Some(z * 86400000 + m)
  {
    var c := CivilFromDays(z);
    CivilRoundTrip(z);
    IsoOfCivil(c, z, m);
  }

  /** An ISO string determines its time value: reading it back gives the time. */
  lemma {:induction false} IsoRoundTrip(t: int)
    requires -MaxTime <= t <= MaxTime
    ensures ParseIso(IsoString(t)) == Some(t)
  {
    var z, m := t / 86400000, t % 86400000;
    assert t == z * 86400000 + m;
    IsoOfDay(z, m);
  }

  /** `Date.prototype.toJSON` on the copy `new Date(d)` of a Date `d`. */
  function DateToJson(t: TimeValue): (r: Value)
    ensures r.Null? || r.Str?
    ensures r.Null? <==> TimeClip(t).NaN?
    ensures r.Str? ==> t.Time? && ValidIso(r.s) && ParseIso(r.s) == Some(t.ms)
    ensures r.Str? ==> forall s :: ValidIso(s) && ParseIso(s) == Some(t.ms) ==> s == r.s
  {
    match TimeClip(t)
    case NaN => Null
    case Time(ms) =>
      IsoRoundTrip(ms);
      assert forall s :: ValidIso(s) && ParseIso(s) == Some(ms) ==> s == IsoString(ms) by {
        forall s | ValidIso(s) && ParseIso(s) == Some(ms)
          ensures s == IsoString(ms)
        {
          IsoStringUnique(ms, s);
        }
      }
      Str(IsoString(ms))
  }
}

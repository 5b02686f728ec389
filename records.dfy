/** The rows of the three tables (weather_data, daily_summary, alert), the
    upstream JSON document, the configured city list and the store that holds
    the tables. */
module Records {

  datatype Option<+T> = None | Some(value: T)

  datatype Result<+T, +E> = Ok(value: T) | Err(error: E)

  /** The rows an optional value contributes to a table: none or one. */
  function Rows<T>(o: Option<T>): (r: seq<T>)
    ensures o.None? <==> r == []
    ensures o.Some? ==> r == [o.value]
  {
    if o.Some? then [o.value] else []
  }

  /** The cities every job iterates over, in this order. */
  const CITIES: seq<string> := ["Delhi", "Mumbai", "Chennai", "Bengaluru", "Kolkata", "Hyderabad"]

  ghost predicate Distinct(xs: seq<string>)
  {
    forall i, j :: 0 <= i < j < |xs| ==> xs[i] != xs[j]
  }

  lemma CitiesDistinct()
    ensures Distinct(CITIES)
  {
  }

  /** The rows of `rows` that belong to `city`, in table order. */
  function OfCity(rows: seq<WeatherData>, city: string): (r: seq<WeatherData>)
    ensures |r| <= |rows|
    ensures forall x :: x in r <==> x in rows && x.city == city
  {
    if rows == [] then []
    else
      var last := rows[|rows| - 1];
      OfCity(rows[..|rows| - 1], city) + (if last.city == city then [last] else [])
  }

  lemma OfCityAppend(rows: seq<WeatherData>, x: WeatherData, city: string)
    ensures OfCity(rows + [x], city) == OfCity(rows, city) + (if x.city == city then [x] else [])
  {
    assert (rows + [x])[..|rows|] == rows;
  }

  /** The city filter keeps every copy of a row of that city and no other
      row: it is the table's multiset restricted to the city. */
  lemma {:induction false} OfCityCounts(rows: seq<WeatherData>, city: string)
    ensures forall x :: multiset(OfCity(rows, city))[x] == if x.city == city then multiset(rows)[x] else 0
  {
    if rows != [] {
      var pre := rows[..|rows| - 1];
      var last := rows[|rows| - 1];
      OfCityCounts(pre, city);
      assert rows == pre + [last];
    }
  }

  /** Instants are whole seconds since the Unix epoch, UTC. */
  const SecondsPerDay: int := 86400

  /** The UTC calendar day of an instant, counted in days since 1970-01-01. */
  function DayOf(t: int): (d: int)
    ensures d * SecondsPerDay <= t < (d + 1) * SecondsPerDay
  {
    t / SecondsPerDay
  }

  /** A weather_data row. `tempCelsius` and `feelsLike` hold whatever unit
      the writer converted to. */
  datatype WeatherData = WeatherData(
    city: string,
    main: string,
    description: string,
    tempCelsius: real,
    feelsLike: real,
    humidity: int,
    windSpeed: real,
    pressure: int,
    visibility: int,
    timestamp: int)

  /** A daily_summary row; `date` is a day number as given by DayOf. The
      dominant condition column is nullable. */
  datatype DailySummary = DailySummary(
    city: string,
    date: int,
    avgTemp: real,
    maxTemp: real,
    minTemp: real,
    dominantCondition: Option<string>)

  /** The text of an alert, kept as the values it interpolates. */
  datatype AlertMessage =
    | TemperatureExceeded(tempThreshold: real)
    | DroppedBelowFreezing
    | HumidityExceeded(humidityThreshold: real)
    | WindSpeedExceeded(windThreshold: real)
    | PressureExceeded(pressureMax: int)
    | PressureBelow(pressureMin: int)
    | VisibilityBelow(shownThreshold: int)

  /** An alert row. */
  datatype Alert = Alert(city: string, alertType: string, message: AlertMessage, timestamp: int)

  /** The decoded current-weather document of the upstream provider. Every
      key the pipeline reads may be missing. */
  datatype Payload = Payload(
    name: Option<string>,
    main: Option<MainSection>,
    wind: Option<WindSection>,
    weather: Option<seq<Condition>>,
    visibility: Option<int>)

  datatype MainSection = MainSection(
    temp: Option<real>,
    feelsLike: Option<real>,
    humidity: Option<int>,
    pressure: Option<int>)

  datatype WindSection = WindSection(speed: Option<real>)

  datatype Condition = Condition(main: Option<string>, description: Option<string>)

  /** The database: one sequence of rows per table, in insertion order.
      Only committed rows are held here. */
  class Store {
    var weather: seq<WeatherData>
    var summaries: seq<DailySummary>
    var alerts: seq<Alert>

    constructor ()
      ensures weather == [] && summaries == [] && alerts == []
    {
      weather, summaries, alerts := [], [], [];
    }
  }

  /** Decimal text of a natural number, as Python's str() writes it. */
  function NatText(n: nat): (s: string)
    ensures 1 <= |s|
    ensures n < 100 ==> |s| <= 2
  {
    if n < 10 then [DigitChar(n)] else NatText(n / 10) + [DigitChar(n % 10)]
  }

  function DigitChar(d: nat): (c: char)
    requires d < 10
    ensures '0' <= c <= '9' && c as int - '0' as int == d
  {
    ('0' as int + d) as char
  }

  /** Decimal text left-padded with zeros to at least `width` characters. */
  function Padded(n: nat, width: nat): (s: string)
    ensures |s| >= width
    ensures n < 100 && width == 2 ==> |s| == 2
  {
    var t := NatText(n);
    if |t| >= width then t else Zeros(width - |t|) + t
  }

  function Zeros(k: nat): (s: string)
    ensures |s| == k
    ensures forall i :: 0 <= i < k ==> s[i] == '0'
  {
    if k == 0 then "" else Zeros(k - 1) + "0"
  }

  predicate IsDigits(s: string)
  {
    forall i :: 0 <= i < |s| ==> '0' <= s[i] <= '9'
  }

  /** The number a string of decimal digits denotes; leading zeros add
      nothing. This is the parser that the date text is read back with. */
  function DigitsValue(s: string): int
  {
    if s == [] then 0 else 10 * DigitsValue(s[..|s| - 1]) + (s[|s| - 1] as int - '0' as int)
  }

  lemma {:induction false} NatTextValue(n: nat)
    ensures IsDigits(NatText(n)) && DigitsValue(NatText(n)) == n
  {
    if n >= 10 {
      NatTextValue(n / 10);
      var s := NatText(n);
      assert s[..|s| - 1] == NatText(n / 10);
    }
  }

  lemma {:induction false} ZerosValue(k: nat, t: string)
    ensures DigitsValue(Zeros(k) + t) == DigitsValue(t)
  {
    if t == [] {
      assert Zeros(k) + t == Zeros(k);
      if k > 0 {
        ZerosValue(k - 1, t);
        assert Zeros(k - 1) + t == Zeros(k - 1);
        assert Zeros(k)[..k - 1] == Zeros(k - 1);
      }
    } else {
      var t' := t[..|t| - 1];
      ZerosValue(k, t');
      assert (Zeros(k) + t)[..|Zeros(k) + t| - 1] == Zeros(k) + t';
    }
  }

  lemma DigitsConcat(a: string, b: string)
    requires IsDigits(a) && IsDigits(b)
    ensures IsDigits(a + b)
  {
    forall i | 0 <= i < |a + b|
      ensures '0' <= (a + b)[i] <= '9'
    {
      if i >= |a| {
        assert (a + b)[i] == b[i - |a|];
      }
    }
  }

  /** Zero padding is undone by reading the digits back. */
  lemma PaddedValue(n: nat, width: nat)
    ensures IsDigits(Padded(n, width)) && DigitsValue(Padded(n, width)) == n
  {
    NatTextValue(n);
    var t := NatText(n);
    if |t| < width {
      var z := Zeros(width - |t|);
      ZerosValue(width - |t|, t);
      assert IsDigits(z);
      DigitsConcat(z, t);
    }
  }

  /** The proleptic Gregorian date (year, month, day of month) of a day
      number, by the civil-from-days conversion over 400-year eras of 146097
      days, each starting on 1 March. */
  function CivilFromDays(day: int): (int, int, int)
  {
    var z := day + 719468;
    var era := z / 146097;
    CivilInEra(era, z - era * 146097)
  }

  /** The date of day `doe` of era `era`. */
  function CivilInEra(era: int, doe: int): (int, int, int)
  {
    var yoe := YearOfEra(doe);
    CivilInYear(yoe + era * 400, doe - DaysBeforeYear(yoe))
  }

  /** The year of the era that a day of the era falls in. */
  function YearOfEra(doe: int): int
  {
    (doe - doe / 1460 + doe / 36524 - doe / 146096) / 365
  }

  /** Days of the era before its year `yoe` begins (on 1 March). */
  function DaysBeforeYear(yoe: int): int
  {
    365 * yoe + yoe / 4 - yoe / 100
  }

  /** The date of day `doy` (from 1 March) of the March-based year `y`: the
      months January and February belong to the next calendar year. */
  function CivilInYear(y: int, doy: int): (int, int, int)
  {
    var mp := (5 * doy + 2) / 153;
    var d := doy - (153 * mp + 2) / 5 + 1;
    var m := if mp < 10 then mp + 3 else mp - 9;
    (y + (if m <= 2 then 1 else 0), m, d)
  }

  /** Day of the March-based year of a month and day of month. */
  function DayOfYear(m: int, d: int): int
  {
    var mp := if m > 2 then m - 3 else m + 9;
    (153 * mp + 2) / 5 + d - 1
  }

  /** The inverse conversion: the day number of a civil date. */
  function DaysFromCivil(y: int, m: int, d: int): int
  {
    var y' := if m <= 2 then y - 1 else y;
    var era := y' / 400;
    var yoe := y' - era * 400;
    era * 146097 + DaysBeforeYear(yoe) + DayOfYear(m, d) - 719468
  }

  /** Within an era, the year and the day of that year are in range. The
      day of the era is split into centuries, four-year cycles and years. */
  lemma YearOfEraBounds(doe: int)
    requires 0 <= doe < 146097
    ensures 0 <= YearOfEra(doe) <= 399 && 0 <= doe - DaysBeforeYear(YearOfEra(doe)) <= 365
  {
    var c := if doe == 146096 then 3 else doe / 36524;
    var doc := doe - 36524 * c;
    assert 0 <= c <= 3 && 0 <= doc <= 36524;
    var q := doc / 1461;
    var doq := doc - 1461 * q;
    assert 0 <= q <= 24 && 0 <= doq <= 1460;
    var yy := if doq == 1460 then 3 else doq / 365;
    var dy := doq - 365 * yy;
    assert 0 <= yy <= 3 && 0 <= dy <= 365;
    assert dy == 365 ==> yy == 3 && doq == 1460;
    var r := 24 * c + q + 365 * yy + dy;
    assert doe == 1460 * (25 * c + q) + r;
    assert 0 <= r <= 1556;
    assert doe / 36524 - doe / 146096 == c;
    assert doe / 1460 == 25 * c + q + r / 1460;
    assert 0 <= dy - r / 1460 <= 364;
    var y := 100 * c + 4 * q + yy;
    assert doe - doe / 1460 + doe / 36524 - doe / 146096 == 365 * y + dy - r / 1460;
    assert YearOfEra(doe) == y;
    assert y / 4 == 25 * c + q && y / 100 == c;
  }

  /** Within a March-based year, the month and day of month are in range and
      give the day of the year back. */
  lemma CivilInYearRoundTrip(y: int, doy: int)
    requires 0 <= doy <= 365
    ensures var c := CivilInYear(y, doy);
            1 <= c.1 <= 12 && 1 <= c.2 <= 31 && DayOfYear(c.1, c.2) == doy
            && (if c.1 <= 2 then c.0 - 1 else c.0) == y
  {
    var mp := (5 * doy + 2) / 153;
    assert 0 <= mp <= 11 && (153 * mp + 2) / 5 <= doy <= (153 * mp + 2) / 5 + 30;
  }

  /** Every day number has a valid month and day of month, and converting
      back gives the day number again. */
  lemma CivilRoundTrip(day: int)
    ensures var c := CivilFromDays(day);
            1 <= c.1 <= 12 && 1 <= c.2 <= 31 && DaysFromCivil(c.0, c.1, c.2) == day
  {
    var z := day + 719468;
    var era := z / 146097;
    EraRoundTrip(era, z - era * 146097);
  }

  lemma EraRoundTrip(era: int, doe: int)
    requires 0 <= doe < 146097
    ensures var c := CivilInEra(era, doe);
            1 <= c.1 <= 12 && 1 <= c.2 <= 31 && DaysFromCivil(c.0, c.1, c.2) == era * 146097 + doe - 719468
  {
    YearOfEraBounds(doe);
    var yoe := YearOfEra(doe);
    CivilInYearRoundTrip(yoe + era * 400, doe - DaysBeforeYear(yoe));
    EraOfYear(era, yoe);
  }

  lemma EraOfYear(era: int, yoe: int)
    requires 0 <= yoe <= 399
    ensures (yoe + era * 400) / 400 == era
  {
  }

  /** The year as str() of a Python date writes it, four digits at least. */
  function YearText(y: int): string
  {
    if y < 0 then "-" + Padded(-y, 4) else Padded(y, 4)
  }

  function DateField(v: int): string
  {
    if v < 0 then "-" + NatText(-v) else Padded(v, 2)
  }

  /** YYYY-MM-DD text of a civil date. */
  function DateText(y: int, m: int, d: int): string
  {
    YearText(y) + "-" + DateField(m) + "-" + DateField(d)
  }

  /** The ISO text (YYYY-MM-DD) of a day number, as str() of a Python date
      writes it. */
  function IsoDate(day: int): string
  {
    var c := CivilFromDays(day);
    DateText(c.0, c.1, c.2)
  }

  /** The year text starts with a dash exactly for negative years, and its
      digits read back as the year's magnitude. */
  lemma YearTextParts(y: int)
    ensures |YearText(y)| >= 1 && (YearText(y)[0] == '-' <==> y < 0)
    ensures DigitsValue(if y < 0 then YearText(y)[1..] else YearText(y)) == if y < 0 then -y else y
  {
    var n := if y < 0 then -y else y;
    PaddedValue(n, 4);
    if y < 0 {
      assert YearText(y)[1..] == Padded(n, 4);
    }
  }

  lemma YearTextInjective(y1: int, y2: int)
    ensures YearText(y1) == YearText(y2) ==> y1 == y2
  {
    YearTextParts(y1);
    YearTextParts(y2);
  }

  /** Text of the form `a-b-c` with two-character `b` and `c` splits back
      into its parts. */
  lemma SplitDateText(a1: string, b1: string, c1: string, a2: string, b2: string, c2: string)
    requires |b1| == |b2| == |c1| == |c2| == 2
    requires a1 + "-" + b1 + "-" + c1 == a2 + "-" + b2 + "-" + c2
    ensures a1 == a2 && b1 == b2 && c1 == c2
  {
    var t := a1 + "-" + b1 + "-" + c1;
    var n := |t|;
    assert a1 == t[..n - 6] == a2;
    assert b1 == t[n - 5..n - 3] == b2;
    assert c1 == t[n - 2..] == c2;
  }

  /** The date text determines the date: the year is what precedes the
      fixed-width "-MM-DD" tail. */
  lemma DateTextInjective(y1: int, m1: int, d1: int, y2: int, m2: int, d2: int)
    requires 1 <= m1 <= 12 && 1 <= d1 <= 31 && 1 <= m2 <= 12 && 1 <= d2 <= 31
    ensures DateText(y1, m1, d1) == DateText(y2, m2, d2) ==> y1 == y2 && m1 == m2 && d1 == d2
  {
    if DateText(y1, m1, d1) == DateText(y2, m2, d2) {
      SplitDateText(YearText(y1), Padded(m1, 2), Padded(d1, 2), YearText(y2), Padded(m2, 2), Padded(d2, 2));
      YearTextInjective(y1, y2);
      PaddedValue(m1, 2);
      PaddedValue(m2, 2);
      PaddedValue(d1, 2);
      PaddedValue(d2, 2);
    }
  }

  /** Distinct days have distinct ISO texts. */
  lemma IsoDateInjective(a: int, b: int)
    ensures IsoDate(a) == IsoDate(b) <==> a == b
  {
    CivilRoundTrip(a);
    CivilRoundTrip(b);
    var c1, c2 := CivilFromDays(a), CivilFromDays(b);
    DateTextInjective(c1.0, c1.1, c1.2, c2.0, c2.1, c2.2);
  }

  predicate DateChars(s: string)
  {
    forall i :: 0 <= i < |s| ==> s[i] == '-' || '0' <= s[i] <= '9'
  }

  lemma DateCharsConcat(a: string, b: string)
    requires DateChars(a) && DateChars(b)
    ensures DateChars(a + b)
  {
    forall i | 0 <= i < |a + b|
      ensures (a + b)[i] == '-' || '0' <= (a + b)[i] <= '9'
    {
      if i >= |a| {
        assert (a + b)[i] == b[i - |a|];
      }
    }
  }

  lemma PaddedDateChars(n: nat, width: nat)
    ensures DateChars(Padded(n, width))
  {
    PaddedValue(n, width);
  }

  /** The ISO text holds only digits and dashes. */
  lemma IsoDateChars(day: int)
    ensures DateChars(IsoDate(day))
  {
    var c := CivilFromDays(day);
    CivilRoundTrip(day);
    PaddedDateChars(if c.0 < 0 then -c.0 else c.0, 4);
    PaddedDateChars(c.1, 2);
    PaddedDateChars(c.2, 2);
    if c.0 < 0 {
      DateCharsConcat("-", Padded(-c.0, 4));
    }
    DateCharsConcat(YearText(c.0), "-");
    DateCharsConcat(YearText(c.0) + "-", Padded(c.1, 2));
    DateCharsConcat(YearText(c.0) + "-" + Padded(c.1, 2), "-");
    DateCharsConcat(YearText(c.0) + "-" + Padded(c.1, 2) + "-", Padded(c.2, 2));
  }

  /** Day 0 is the epoch, 1970-01-01. */
  lemma IsoDateEpoch()
    ensures IsoDate(0) == "1970-01-01"
  {
    assert 719468 / 146097 == 4;
    assert 135080 / 1460 == 92 && 135080 / 36524 == 3 && 135080 / 146096 == 0;
    assert 134991 / 365 == 369;
    assert 369 / 4 == 92 && 369 / 100 == 3;
    assert 1532 / 153 == 10 && 1532 / 5 == 306;
    assert CivilFromDays(0) == (1970, 1, 1);
    assert NatText(1970) == "1970" by {
      assert 1970 / 10 == 197 && 197 / 10 == 19 && 19 / 10 == 1;
    }
    assert Padded(1970, 4) == "1970";
    assert DateField(1) == "01" by {
      assert Zeros(1) == "0";
    }
  }
}

/** The alert evaluator: seven threshold rules over each city's two newest
    observations, the alert rows their tasks append, and the latest-alert
    lookup that guards the alert e-mail. */
module Alerts {
  import opened Records

  /** The caller-supplied thresholds of `check_alerts`. */
  datatype Thresholds = Thresholds(
    temp: real,
    humidity: real,
    pressureMin: int,
    pressureMax: int,
    wind: real,
    visibility: int)

  const DefaultThresholds: Thresholds := Thresholds(35.0, 80.0, 1000, 1030, 15.0, 1000)

  /** The fixed bound of the "Very Cold" rule; no parameter changes it. */
  const LowTemp: real := 0.0

  /** The seven rules, in the order `check_alerts` tries them. */
  datatype Rule = HighTemperature | VeryCold | HighHumidity | StrongWinds | HighPressure | LowPressure | LowVisibility

  function RuleIndex(r: Rule): nat
  {
    match r
    case HighTemperature => 0
    case VeryCold => 1
    case HighHumidity => 2
    case StrongWinds => 3
    case HighPressure => 4
    case LowPressure => 5
    case LowVisibility => 6
  }

  /** The alert_type text each rule writes. */
  function TypeName(r: Rule): string
  {
    match r
    case HighTemperature => "High Temperature"
    case VeryCold => "Very Cold"
    case HighHumidity => "High Humidity"
    case StrongWinds => "Very Strong Winds"
    case HighPressure => "Very High Pressure"
    case LowPressure => "Very Low Pressure"
    case LowVisibility => "Very Low Visibility"
  }

  /** The alert_type text names the rule: no two rules write the same text. */
  lemma TypeNameInjective(r1: Rule, r2: Rule)
    ensures TypeName(r1) == TypeName(r2) <==> r1 == r2
  {
  }

  /** The message each rule writes. The visibility rule shows the minimum
      pressure threshold, not the visibility threshold. */
  function MessageOf(r: Rule, th: Thresholds): AlertMessage
  {
    match r
    case HighTemperature => TemperatureExceeded(th.temp)
    case VeryCold => DroppedBelowFreezing
    case HighHumidity => HumidityExceeded(th.humidity)
    case StrongWinds => WindSpeedExceeded(th.wind)
    case HighPressure => PressureExceeded(th.pressureMax)
    case LowPressure => PressureBelow(th.pressureMin)
    case LowVisibility => VisibilityBelow(th.pressureMin)
  }

  /** Whether a rule triggers on the newest and the previous observation.
      Every comparison is strict. */
  predicate Fires(r: Rule, newest: WeatherData, previous: WeatherData, th: Thresholds)
  {
    match r
    case HighTemperature => newest.tempCelsius > th.temp && previous.tempCelsius > th.temp
    case VeryCold => newest.tempCelsius < LowTemp
    case HighHumidity => newest.humidity as real > th.humidity
    case StrongWinds => newest.windSpeed > th.wind
    case HighPressure => newest.pressure > th.pressureMax
    case LowPressure => newest.pressure < th.pressureMin
    case LowVisibility => newest.visibility < th.visibility
  }

  /** One queued `create_alert(city, alert_type, alert_message)` call. */
  datatype AlertTask = AlertTask(city: string, rule: Rule, message: AlertMessage) {
    function AlertType(): string
    {
      TypeName(rule)
    }
  }

  /** The index of the newest row; on equal timestamps the first inserted. */
  function NewestIndex(rows: seq<WeatherData>): (i: nat)
    requires |rows| > 0
    ensures i < |rows|
    ensures forall j :: 0 <= j < |rows| ==> rows[j].timestamp <= rows[i].timestamp
  {
    if |rows| == 1 then 0
    else
      var k := NewestIndex(rows[..|rows| - 1]);
      if rows[|rows| - 1].timestamp > rows[k].timestamp then |rows| - 1 else k
  }

  function Without(rows: seq<WeatherData>, i: nat): (r: seq<WeatherData>)
    requires i < |rows|
    ensures |r| == |rows| - 1
    ensures forall j :: 0 <= j < i ==> r[j] == rows[j]
    ensures forall j :: i < j < |rows| ==> r[j - 1] == rows[j]
  {
    rows[..i] + rows[i + 1..]
  }

  /** `order_by(timestamp.desc()).limit(2)` over one city's rows: the newest
      row, then the newest of the others. */
  function RecentTwo(rows: seq<WeatherData>): (r: seq<WeatherData>)
    ensures |r| == if |rows| < 2 then |rows| else 2
  {
    if |rows| == 0 then []
    else
      var i := NewestIndex(rows);
      if |rows| == 1 then [rows[i]]
      else
        var rest := Without(rows, i);
        [rows[i], rest[NewestIndex(rest)]]
  }

  /** The limit-2 query returns distinct table rows of the city's own (a
      row twice only if the table holds it twice) and, with two rows or
      fewer, all of them. */
  lemma RecentTwoRows(rows: seq<WeatherData>)
    ensures multiset(RecentTwo(rows)) <= multiset(rows)
    ensures forall x :: x in RecentTwo(rows) ==> x in rows
    ensures |rows| <= 2 ==> forall x :: x in rows ==> x in RecentTwo(rows)
  {
    RecentTwoSubMultiset(rows);
    if |rows| == 2 {
      var i := NewestIndex(rows);
      assert Without(rows, i) == [rows[1 - i]];
      assert RecentTwo(rows) == [rows[i], rows[1 - i]];
    }
  }

  lemma RecentTwoSubMultiset(rows: seq<WeatherData>)
    ensures multiset(RecentTwo(rows)) <= multiset(rows)
  {
    if |rows| == 1 {
      assert RecentTwo(rows) == rows;
    } else if |rows| >= 2 {
      var i := NewestIndex(rows);
      var rest := Without(rows, i);
      var k := NewestIndex(rest);
      assert RecentTwo(rows) == [rows[i]] + [rest[k]];
      WithoutMultiset(rows, i);
      assert multiset{rest[k]} <= multiset(rest) by {
        assert rest[k] in rest;
      }
    }
  }

  /** Removing one position removes exactly that row from the multiset. */
  lemma WithoutMultiset(rows: seq<WeatherData>, i: nat)
    requires i < |rows|
    ensures multiset(rows) == multiset(Without(rows, i)) + multiset{rows[i]}
  {
    assert rows == rows[..i] + [rows[i]] + rows[i + 1..];
  }

  /** The first row of the limit-2 query is the newest: no row is newer. */
  lemma RecentTwoFirstNewest(rows: seq<WeatherData>)
    requires |rows| >= 1
    ensures forall x :: x in rows ==> x.timestamp <= RecentTwo(rows)[0].timestamp
  {
  }

  /** The second row is at most as new as the first, and every row other
      than the newest is at most as new as the second. */
  lemma RecentTwoSecondNewest(rows: seq<WeatherData>)
    requires |rows| >= 2
    ensures RecentTwo(rows)[1].timestamp <= RecentTwo(rows)[0].timestamp
    ensures forall j :: 0 <= j < |rows| && j != NewestIndex(rows) ==> rows[j].timestamp <= RecentTwo(rows)[1].timestamp
  {
    var i := NewestIndex(rows);
    var rest := Without(rows, i);
    var k := NewestIndex(rest);
    assert RecentTwo(rows) == [rows[i], rest[k]];
    WithoutAt(rows, i, if k < i then k else k + 1);
    forall j | 0 <= j < |rows| && j != i
      ensures rows[j].timestamp <= rest[k].timestamp
    {
      WithoutAt(rows, i, j);
    }
  }

  /** Where a row other than the removed one sits after the removal. */
  lemma WithoutAt(rows: seq<WeatherData>, i: nat, j: nat)
    requires i < |rows| && j < |rows| && j != i
    ensures rows[j] == Without(rows, i)[if j < i then j else j - 1]
  {
  }

  lemma {:induction false} NewestIndexAppendOlder(rows: seq<WeatherData>, w: WeatherData)
    requires |rows| > 0
    requires w.timestamp < rows[NewestIndex(rows)].timestamp
    ensures NewestIndex(rows + [w]) == NewestIndex(rows)
  {
    assert (rows + [w])[..|rows|] == rows;
  }

  /** A row strictly older than a city's second-newest changes nothing the
      limit-2 query returns. */
  lemma WithoutAppend(rows: seq<WeatherData>, w: WeatherData, i: nat)
    requires i < |rows|
    ensures Without(rows + [w], i) == Without(rows, i) + [w]
  {
    assert (rows + [w])[..i] == rows[..i];
    assert (rows + [w])[i + 1..] == rows[i + 1..] + [w];
  }

  lemma RecentTwoIgnoresOlder(rows: seq<WeatherData>, w: WeatherData)
    requires |rows| >= 2
    requires w.timestamp < RecentTwo(rows)[1].timestamp
    ensures RecentTwo(rows + [w]) == RecentTwo(rows)
  {
    var i := NewestIndex(rows);
    var rest := Without(rows, i);
    var k := NewestIndex(rest);
    assert RecentTwo(rows) == [rows[i], rest[k]];
    NewestIndexAppendOlder(rows, w);
    var rest' := Without(rows + [w], i);
    WithoutAppend(rows, w, i);
    NewestIndexAppendOlder(rest, w);
    assert RecentTwo(rows + [w]) == [(rows + [w])[i], rest'[NewestIndex(rest')]];
  }

  /** The task one rule enqueues: one when it fires, none otherwise. */
  function RuleTask(r: Rule, city: string, newest: WeatherData, previous: WeatherData, th: Thresholds): (ts: seq<AlertTask>)
    ensures |ts| <= 1
  {
    if Fires(r, newest, previous, th) then [AlertTask(city, r, MessageOf(r, th))] else []
  }

  /** The tasks the seven rules enqueue for one city, in the order tried. */
  function FiredTasks(city: string, newest: WeatherData, previous: WeatherData, th: Thresholds): (ts: seq<AlertTask>)
    ensures |ts| <= 7
  {
    RuleTask(HighTemperature, city, newest, previous, th)
    + RuleTask(VeryCold, city, newest, previous, th)
    + RuleTask(HighHumidity, city, newest, previous, th)
    + RuleTask(StrongWinds, city, newest, previous, th)
    + RuleTask(HighPressure, city, newest, previous, th)
    + RuleTask(LowPressure, city, newest, previous, th)
    + RuleTask(LowVisibility, city, newest, previous, th)
  }

  lemma RuleTaskIff(r: Rule, city: string, newest: WeatherData, previous: WeatherData, th: Thresholds, t: AlertTask)
    ensures t in RuleTask(r, city, newest, previous, th)
            <==> t == AlertTask(city, r, MessageOf(r, th)) && Fires(r, newest, previous, th)
  {
  }

  /** A task is enqueued exactly for each rule that fires, for that city and
      with that rule's message. */
  lemma FiredTasksIff(city: string, newest: WeatherData, previous: WeatherData, th: Thresholds)
    ensures forall t :: t in FiredTasks(city, newest, previous, th) <==>
              t.city == city && Fires(t.rule, newest, previous, th) && t.message == MessageOf(t.rule, th)
  {
    forall t: AlertTask
      ensures t in FiredTasks(city, newest, previous, th) <==>
              t.city == city && Fires(t.rule, newest, previous, th) && t.message == MessageOf(t.rule, th)
    {
      RuleTaskIff(HighTemperature, city, newest, previous, th, t);
      RuleTaskIff(VeryCold, city, newest, previous, th, t);
      RuleTaskIff(HighHumidity, city, newest, previous, th, t);
      RuleTaskIff(StrongWinds, city, newest, previous, th, t);
      RuleTaskIff(HighPressure, city, newest, previous, th, t);
      RuleTaskIff(LowPressure, city, newest, previous, th, t);
      RuleTaskIff(LowVisibility, city, newest, previous, th, t);
    }
  }

  /** Tasks whose rules strictly ascend in the order they were tried. */
  ghost predicate TasksAscend(ts: seq<AlertTask>)
  {
    forall i, j :: 0 <= i < j < |ts| ==> RuleIndex(ts[i].rule) < RuleIndex(ts[j].rule)
  }

  lemma AscendStep(a: seq<AlertTask>, r: Rule, city: string, newest: WeatherData, previous: WeatherData, th: Thresholds)
    requires TasksAscend(a)
    requires forall t :: t in a ==> RuleIndex(t.rule) < RuleIndex(r)
    ensures TasksAscend(a + RuleTask(r, city, newest, previous, th))
    ensures forall t :: t in a + RuleTask(r, city, newest, previous, th) ==> RuleIndex(t.rule) <= RuleIndex(r)
  {
    var ts := a + RuleTask(r, city, newest, previous, th);
    forall i, j | 0 <= i < j < |ts|
      ensures RuleIndex(ts[i].rule) < RuleIndex(ts[j].rule)
    {
      if j < |a| {
        assert ts[i] == a[i] && ts[j] == a[j];
      } else {
        assert ts[i] == a[i] && a[i] in a;
      }
    }
  }

  /** The rules' tasks come out in the order the rules are tried, so no rule
      enqueues twice for one city. */
  lemma FiredTasksAscend(city: string, newest: WeatherData, previous: WeatherData, th: Thresholds)
    ensures TasksAscend(FiredTasks(city, newest, previous, th))
  {
    var ts0 := RuleTask(HighTemperature, city, newest, previous, th);
    AscendStep(ts0, VeryCold, city, newest, previous, th);
    var ts1 := ts0 + RuleTask(VeryCold, city, newest, previous, th);
    AscendStep(ts1, HighHumidity, city, newest, previous, th);
    var ts2 := ts1 + RuleTask(HighHumidity, city, newest, previous, th);
    AscendStep(ts2, StrongWinds, city, newest, previous, th);
    var ts3 := ts2 + RuleTask(StrongWinds, city, newest, previous, th);
    AscendStep(ts3, HighPressure, city, newest, previous, th);
    var ts4 := ts3 + RuleTask(HighPressure, city, newest, previous, th);
    AscendStep(ts4, LowPressure, city, newest, previous, th);
    var ts5 := ts4 + RuleTask(LowPressure, city, newest, previous, th);
    AscendStep(ts5, LowVisibility, city, newest, previous, th);
  }

  /** The tasks one city contributes, given its rows from the limit-2 query:
      nothing unless there are two. */
  function CityTasks(city: string, recent: seq<WeatherData>, th: Thresholds): (ts: seq<AlertTask>)
    ensures |ts| <= 7
    ensures forall t :: t in ts ==> t.city == city
  {
    if |recent| < 2 then [] else FiredTasks(city, recent[0], recent[1], th)
  }

  /** The tasks `check_alerts` enqueues over `cities`, city by city. */
  function AlertTasks(table: seq<WeatherData>, cities: seq<string>, th: Thresholds): (ts: seq<AlertTask>)
    ensures |ts| <= 7 * |cities|
    ensures forall t :: t in ts ==> t.city in cities
  {
    if cities == [] then []
    else
      var c := cities[|cities| - 1];
      assert forall d :: d in cities[..|cities| - 1] ==> d in cities;
      AlertTasks(table, cities[..|cities| - 1], th) + CityTasks(c, RecentTwo(OfCity(table, c)), th)
  }

  /** The body of `check_alerts` for one city with two rows: each of the
      seven rules is tried in turn and enqueues its task when it fires. */
  method EnqueueCityAlerts(city: string, newest: WeatherData, previous: WeatherData, th: Thresholds)
    returns (tasks: seq<AlertTask>)
    ensures tasks == FiredTasks(city, newest, previous, th)
  {
    tasks := if newest.tempCelsius > th.temp && previous.tempCelsius > th.temp
      then [AlertTask(city, HighTemperature, TemperatureExceeded(th.temp))] else [];
    ghost var expected := RuleTask(HighTemperature, city, newest, previous, th);
    assert tasks == expected;
    tasks := tasks + if newest.tempCelsius < LowTemp
      then [AlertTask(city, VeryCold, DroppedBelowFreezing)] else [];
    expected := expected + RuleTask(VeryCold, city, newest, previous, th);
    assert tasks == expected;
    tasks := tasks + if newest.humidity as real > th.humidity
      then [AlertTask(city, HighHumidity, HumidityExceeded(th.humidity))] else [];
    expected := expected + RuleTask(HighHumidity, city, newest, previous, th);
    assert tasks == expected;
    tasks := tasks + if newest.windSpeed > th.wind
      then [AlertTask(city, StrongWinds, WindSpeedExceeded(th.wind))] else [];
    expected := expected + RuleTask(StrongWinds, city, newest, previous, th);
    assert tasks == expected;
    tasks := tasks + if newest.pressure > th.pressureMax
      then [AlertTask(city, HighPressure, PressureExceeded(th.pressureMax))] else [];
    expected := expected + RuleTask(HighPressure, city, newest, previous, th);
    assert tasks == expected;
    tasks := tasks + if newest.pressure < th.pressureMin
      then [AlertTask(city, LowPressure, PressureBelow(th.pressureMin))] else [];
    expected := expected + RuleTask(LowPressure, city, newest, previous, th);
    assert tasks == expected;
    tasks := tasks + if newest.visibility < th.visibility
      then [AlertTask(city, LowVisibility, VisibilityBelow(th.pressureMin))] else [];
    expected := expected + RuleTask(LowVisibility, city, newest, previous, th);
    assert tasks == expected;
  }

  lemma AlertTasksStep(table: seq<WeatherData>, cities: seq<string>, th: Thresholds, i: nat)
    requires i < |cities|
    ensures AlertTasks(table, cities[..i + 1], th)
            == AlertTasks(table, cities[..i], th) + CityTasks(cities[i], RecentTwo(OfCity(table, cities[i])), th)
  {
    assert cities[..i + 1][..i] == cities[..i];
  }

  /** `check_alerts`: for each city, query its two newest rows and enqueue a
      task per triggered rule. */
  method CheckAlerts(db: Store, th: Thresholds) returns (queue: seq<AlertTask>)
    ensures queue == AlertTasks(db.weather, CITIES, th)
  {
    queue := [];
    for i := 0 to |CITIES|
      invariant queue == AlertTasks(db.weather, CITIES[..i], th)
    {
      var city := CITIES[i];
      var recent := RecentTwo(OfCity(db.weather, city));
      AlertTasksStep(db.weather, CITIES, th, i);
      if |recent| >= 2 {
        var tasks := EnqueueCityAlerts(city, recent[0], recent[1], th);
        queue := queue + tasks;
      }
    }
    assert CITIES[..|CITIES|] == CITIES;
  }

  /** The tasks of one city, in queue order. */
  function TasksOf(ts: seq<AlertTask>, city: string): (r: seq<AlertTask>)
    ensures forall t :: t in r <==> t in ts && t.city == city
  {
    if ts == [] then []
    else
      var t := ts[|ts| - 1];
      TasksOf(ts[..|ts| - 1], city) + (if t.city == city then [t] else [])
  }

  lemma {:induction false} TasksOfConcat(a: seq<AlertTask>, b: seq<AlertTask>, city: string)
    ensures TasksOf(a + b, city) == TasksOf(a, city) + TasksOf(b, city)
  {
    if b != [] {
      var b' := b[..|b| - 1];
      var x := b[|b| - 1];
      assert (a + b)[..|a + b| - 1] == a + b';
      assert (a + b)[|a + b| - 1] == x;
      TasksOfConcat(a, b', city);
      var tail := if x.city == city then [x] else [];
      assert TasksOf(a + b, city) == TasksOf(a + b', city) + tail;
      assert TasksOf(b, city) == TasksOf(b', city) + tail;
    } else {
      assert a + b == a;
    }
  }

  lemma {:induction false} TasksOfSingleCity(ts: seq<AlertTask>, d: string, city: string)
    requires forall t :: t in ts ==> t.city == d
    ensures TasksOf(ts, city) == if d == city then ts else []
  {
    if ts != [] {
      var pre := ts[..|ts| - 1];
      var x := ts[|ts| - 1];
      assert x in ts;
      assert ts == pre + [x];
      assert forall t :: t in pre ==> t in ts;
      TasksOfSingleCity(pre, d, city);
    }
  }

  /** With distinct cities, the queue holds for each city exactly the tasks
      that city's own two newest rows produce, in rule order; other cities'
      rows play no part. */
  lemma {:induction false} TasksOfCity(table: seq<WeatherData>, cities: seq<string>, th: Thresholds, city: string)
    requires Distinct(cities)
    ensures TasksOf(AlertTasks(table, cities, th), city)
            == if city in cities then CityTasks(city, RecentTwo(OfCity(table, city)), th) else []
  {
    if cities != [] {
      var pre := cities[..|cities| - 1];
      var c := cities[|cities| - 1];
      assert Distinct(pre);
      assert c !in pre;
      assert forall d :: d in cities ==> d in pre || d == c;
      TasksOfCity(table, pre, th, city);
      TasksOfConcat(AlertTasks(table, pre, th), CityTasks(c, RecentTwo(OfCity(table, c)), th), city);
      TasksOfSingleCity(CityTasks(c, RecentTwo(OfCity(table, c)), th), c, city);
    }
  }

  /** Appending a row strictly older than its city's second-newest row leaves
      the queue unchanged. */
  lemma {:induction false} AlertTasksIgnoreOlder(table: seq<WeatherData>, cities: seq<string>, th: Thresholds, w: WeatherData)
    requires |OfCity(table, w.city)| >= 2
    requires w.timestamp < RecentTwo(OfCity(table, w.city))[1].timestamp
    ensures AlertTasks(table + [w], cities, th) == AlertTasks(table, cities, th)
  {
    if cities != [] {
      var pre := cities[..|cities| - 1];
      var c := cities[|cities| - 1];
      AlertTasksIgnoreOlder(table, pre, th, w);
      OfCityAppend(table, w, c);
      assert RecentTwo(OfCity(table + [w], c)) == RecentTwo(OfCity(table, c)) by {
        if c == w.city {
          RecentTwoIgnoresOlder(OfCity(table, c), w);
        } else {
          assert OfCity(table + [w], c) == OfCity(table, c);
        }
      }
      assert AlertTasks(table + [w], cities, th)
             == AlertTasks(table + [w], pre, th) + CityTasks(c, RecentTwo(OfCity(table + [w], c)), th);
    }
  }

  /** Whether the queue holds a task of `rule` for `city`. */
  ghost predicate Raised(ts: seq<AlertTask>, city: string, rule: Rule)
  {
    exists t :: t in ts && t.city == city && t.rule == rule
  }

  /** A rule is raised for a listed city exactly when the city has two rows
      and the rule fires on its two newest. */
  lemma RaisedIff(table: seq<WeatherData>, cities: seq<string>, th: Thresholds, city: string, rule: Rule)
    requires Distinct(cities) && city in cities
    ensures var recent := RecentTwo(OfCity(table, city));
            Raised(AlertTasks(table, cities, th), city, rule)
            <==> |recent| == 2 && Fires(rule, recent[0], recent[1], th)
  {
    var recent := RecentTwo(OfCity(table, city));
    var ts := AlertTasks(table, cities, th);
    TasksOfCity(table, cities, th, city);
    if |recent| == 2 {
      FiredTasksIff(city, recent[0], recent[1], th);
    }
    if |recent| == 2 && Fires(rule, recent[0], recent[1], th) {
      var t := AlertTask(city, rule, MessageOf(rule, th));
      assert t in TasksOf(ts, city);
    }
    if Raised(ts, city, rule) {
      var t :| t in ts && t.city == city && t.rule == rule;
      assert t in TasksOf(ts, city);
    }
  }

  /** A city with fewer than two stored rows gets no task at all. */
  lemma NoTasksWithoutHistory(table: seq<WeatherData>, cities: seq<string>, th: Thresholds, city: string)
    requires Distinct(cities)
    requires |OfCity(table, city)| < 2
    ensures forall t :: t in AlertTasks(table, cities, th) ==> t.city != city
  {
    TasksOfCity(table, cities, th, city);
    assert TasksOf(AlertTasks(table, cities, th), city) == [];
  }

  /** "High Temperature" needs both newest rows strictly above the threshold. */
  lemma HighTemperatureNeedsBoth(table: seq<WeatherData>, cities: seq<string>, th: Thresholds, city: string)
    requires Distinct(cities) && city in cities
    ensures var recent := RecentTwo(OfCity(table, city));
            Raised(AlertTasks(table, cities, th), city, HighTemperature)
            <==> |recent| == 2 && recent[0].tempCelsius > th.temp && recent[1].tempCelsius > th.temp
  {
    RaisedIff(table, cities, th, city, HighTemperature);
  }

  /** Under the default 35.0 threshold, a city whose two rows are both 36.0
      gets "High Temperature"; one row at or below 35.0 (a hot reading after
      a cooler one) prevents it. */
  lemma HighTemperatureExample(table: seq<WeatherData>, cities: seq<string>, city: string)
    requires Distinct(cities) && city in cities
    requires |OfCity(table, city)| == 2
    ensures (forall x :: x in OfCity(table, city) ==> x.tempCelsius == 36.0)
            ==> Raised(AlertTasks(table, cities, DefaultThresholds), city, HighTemperature)
    ensures (exists x :: x in OfCity(table, city) && x.tempCelsius <= 35.0)
            ==> !Raised(AlertTasks(table, cities, DefaultThresholds), city, HighTemperature)
  {
    var rows := OfCity(table, city);
    var recent := RecentTwo(rows);
    HighTemperatureNeedsBoth(table, cities, DefaultThresholds, city);
    RecentTwoRows(rows);
    assert recent[0] in rows && recent[1] in rows;
    assert forall x :: x in rows ==> x == recent[0] || x == recent[1];
  }

  /** Every rule but "High Temperature" reads only the newest row: whatever
      row stands second, the rule is raised exactly when it fires on the
      newest one. */
  lemma NewestOnlyRules(table: seq<WeatherData>, cities: seq<string>, th: Thresholds, city: string, rule: Rule, other: WeatherData)
    requires Distinct(cities) && city in cities
    requires |OfCity(table, city)| >= 2
    requires rule != HighTemperature
    ensures Raised(AlertTasks(table, cities, th), city, rule)
            <==> Fires(rule, RecentTwo(OfCity(table, city))[0], other, th)
  {
    var recent := RecentTwo(OfCity(table, city));
    assert |recent| == 2;
    RaisedIff(table, cities, th, city, rule);
    FiresIgnoresPrevious(rule, recent[0], recent[1], other, th);
  }

  lemma FiresIgnoresPrevious(rule: Rule, newest: WeatherData, previous: WeatherData, other: WeatherData, th: Thresholds)
    requires rule != HighTemperature
    ensures Fires(rule, newest, previous, th) == Fires(rule, newest, other, th)
  {
  }

  /** No threshold changes whether "Very Cold" is raised. */
  lemma VeryColdIgnoresThresholds(table: seq<WeatherData>, cities: seq<string>, th1: Thresholds, th2: Thresholds, city: string)
    requires Distinct(cities)
    ensures Raised(AlertTasks(table, cities, th1), city, VeryCold) <==> Raised(AlertTasks(table, cities, th2), city, VeryCold)
  {
    if city in cities {
      RaisedIff(table, cities, th1, city, VeryCold);
      RaisedIff(table, cities, th2, city, VeryCold);
    }
  }

  /** A reading exactly at its threshold fires nothing: every comparison
      is strict. */
  lemma AtThresholdNoAlert(newest: WeatherData, previous: WeatherData, th: Thresholds)
    ensures newest.tempCelsius == th.temp ==> !Fires(HighTemperature, newest, previous, th)
    ensures previous.tempCelsius == th.temp ==> !Fires(HighTemperature, newest, previous, th)
    ensures newest.tempCelsius == LowTemp ==> !Fires(VeryCold, newest, previous, th)
    ensures newest.humidity as real == th.humidity ==> !Fires(HighHumidity, newest, previous, th)
    ensures newest.windSpeed == th.wind ==> !Fires(StrongWinds, newest, previous, th)
    ensures newest.pressure == th.pressureMax ==> !Fires(HighPressure, newest, previous, th)
    ensures newest.pressure == th.pressureMin ==> !Fires(LowPressure, newest, previous, th)
    ensures newest.visibility == th.visibility ==> !Fires(LowVisibility, newest, previous, th)
  {
  }

  /** With min <= max, one check never raises both pressure alerts for a city. */
  lemma PressureAlertsExclusive(table: seq<WeatherData>, cities: seq<string>, th: Thresholds, city: string)
    requires Distinct(cities)
    requires th.pressureMin <= th.pressureMax
    ensures !(Raised(AlertTasks(table, cities, th), city, HighPressure) && Raised(AlertTasks(table, cities, th), city, LowPressure))
  {
    var ts := AlertTasks(table, cities, th);
    if city in cities {
      var recent := RecentTwo(OfCity(table, city));
      RaisedIff(table, cities, th, city, HighPressure);
      RaisedIff(table, cities, th, city, LowPressure);
      PressureRulesExclusive(Raised(ts, city, HighPressure), Raised(ts, city, LowPressure), recent, th);
    }
  }

  lemma PressureRulesExclusive(high: bool, low: bool, recent: seq<WeatherData>, th: Thresholds)
    requires th.pressureMin <= th.pressureMax
    requires high <==> |recent| == 2 && Fires(HighPressure, recent[0], recent[1], th)
    requires low <==> |recent| == 2 && Fires(LowPressure, recent[0], recent[1], th)
    ensures !(high && low)
  {
  }

  /** The position of the first occurrence of `x`, or |xs| when absent. */
  function IndexOf(xs: seq<string>, x: string): (i: nat)
    ensures i <= |xs|
    ensures i < |xs| <==> x in xs
    ensures i < |xs| ==> xs[i] == x && forall k :: 0 <= k < i ==> xs[k] != x
  {
    if xs == [] then 0
    else if xs[0] == x then 0
    else 1 + IndexOf(xs[1..], x)
  }

  lemma IndexOfPrefix(xs: seq<string>, x: string)
    requires |xs| > 0 && x in xs[..|xs| - 1]
    ensures IndexOf(xs, x) == IndexOf(xs[..|xs| - 1], x) < |xs| - 1
  {
    var pre := xs[..|xs| - 1];
    var i := IndexOf(pre, x);
    assert xs[i] == x;
    assert forall k :: 0 <= k < i ==> xs[k] == pre[k];
  }

  lemma IndexOfLast(xs: seq<string>)
    requires |xs| > 0 && Distinct(xs)
    ensures IndexOf(xs, xs[|xs| - 1]) == |xs| - 1
  {
  }

  /** Tasks ordered by the position of their city in `cities`, and within a
      city by rule. */
  ghost predicate InOrder(cities: seq<string>, ts: seq<AlertTask>)
  {
    forall i, j :: 0 <= i < j < |ts| ==>
      IndexOf(cities, ts[i].city) < IndexOf(cities, ts[j].city)
      || (ts[i].city == ts[j].city && RuleIndex(ts[i].rule) < RuleIndex(ts[j].rule))
  }

  lemma InOrderConcat(cities: seq<string>, a: seq<AlertTask>, b: seq<AlertTask>)
    requires InOrder(cities, a) && InOrder(cities, b)
    requires forall x, y :: x in a && y in b ==> IndexOf(cities, x.city) < IndexOf(cities, y.city)
    ensures InOrder(cities, a + b)
  {
    var ts := a + b;
    forall i, j | 0 <= i < j < |ts|
      ensures IndexOf(cities, ts[i].city) < IndexOf(cities, ts[j].city)
              || (ts[i].city == ts[j].city && RuleIndex(ts[i].rule) < RuleIndex(ts[j].rule))
    {
      if j < |a| {
        assert ts[i] == a[i] && ts[j] == a[j];
      } else if i < |a| {
        assert ts[i] == a[i] && ts[j] == b[j - |a|];
        assert a[i] in a && b[j - |a|] in b;
      } else {
        assert ts[i] == b[i - |a|] && ts[j] == b[j - |a|];
      }
    }
  }

  /** Tasks come out in city order, and within a city in rule order. */
  lemma {:induction false} TasksInOrder(table: seq<WeatherData>, cities: seq<string>, th: Thresholds)
    requires Distinct(cities)
    ensures InOrder(cities, AlertTasks(table, cities, th))
  {
    if cities != [] {
      var pre := cities[..|cities| - 1];
      var c := cities[|cities| - 1];
      assert Distinct(pre);
      assert c !in pre;
      TasksInOrder(table, pre, th);
      var a := AlertTasks(table, pre, th);
      var recent := RecentTwo(OfCity(table, c));
      var b := CityTasks(c, recent, th);
      IndexOfLast(cities);
      forall d | d in pre
        ensures IndexOf(cities, d) == IndexOf(pre, d) < |cities| - 1
      {
        IndexOfPrefix(cities, d);
      }
      assert InOrder(cities, a) by {
        forall i, j | 0 <= i < j < |a|
          ensures IndexOf(cities, a[i].city) < IndexOf(cities, a[j].city)
                  || (a[i].city == a[j].city && RuleIndex(a[i].rule) < RuleIndex(a[j].rule))
        {
          assert a[i] in a && a[j] in a;
        }
      }
      assert InOrder(cities, b) by {
        if |recent| >= 2 {
          FiredTasksAscend(c, recent[0], recent[1], th);
        }
        forall i, j | 0 <= i < j < |b|
          ensures b[i].city == b[j].city && RuleIndex(b[i].rule) < RuleIndex(b[j].rule)
        {
          assert b[i] in b && b[j] in b;
        }
      }
      InOrderConcat(cities, a, b);
    }
  }

  /** Each triggered rule enqueues one task: no city gets the same rule twice
      in one check. */
  lemma OneTaskPerRule(table: seq<WeatherData>, cities: seq<string>, th: Thresholds)
    requires Distinct(cities)
    ensures var ts := AlertTasks(table, cities, th);
            forall i, j :: 0 <= i < j < |ts| && ts[i].city == ts[j].city ==> ts[i].rule != ts[j].rule
  {
    TasksInOrder(table, cities, th);
  }

  /** `create_alert`: append one alert row and commit. */
  method CreateAlert(db: Store, city: string, alertType: string, message: AlertMessage, now: int)
    modifies db
    ensures db.alerts == old(db.alerts) + [Alert(city, alertType, message, now)]
    ensures db.weather == old(db.weather) && db.summaries == old(db.summaries)
  {
    db.alerts := db.alerts + [Alert(city, alertType, message, now)];
  }

  /** The alert rows a drained queue appends, one per task, in queue order. */
  function AlertsOf(ts: seq<AlertTask>, times: seq<int>): (r: seq<Alert>)
    requires |times| == |ts|
    ensures |r| == |ts|
    ensures forall i :: 0 <= i < |ts| ==>
              r[i] == Alert(ts[i].city, ts[i].AlertType(), ts[i].message, times[i])
  {
    if ts == [] then []
    else
      var n := |ts| - 1;
      AlertsOf(ts[..n], times[..n]) + [Alert(ts[n].city, ts[n].AlertType(), ts[n].message, times[n])]
  }

  /** Draining the queue: each task runs `create_alert`, which reads the
      clock itself, so `times[i]` is the instant the i-th task runs. */
  method RunAlertTasks(db: Store, queue: seq<AlertTask>, times: seq<int>)
    requires |times| == |queue|
    modifies db
    ensures db.alerts == old(db.alerts) + AlertsOf(queue, times)
    ensures db.weather == old(db.weather) && db.summaries == old(db.summaries)
  {
    for i := 0 to |queue|
      invariant db.alerts == old(db.alerts) + AlertsOf(queue[..i], times[..i])
      invariant db.weather == old(db.weather) && db.summaries == old(db.summaries)
    {
      assert queue[..i + 1][..i] == queue[..i];
      assert times[..i + 1][..i] == times[..i];
      CreateAlert(db, queue[i].city, queue[i].AlertType(), queue[i].message, times[i]);
    }
    assert queue[..|queue|] == queue;
    assert times[..|times|] == times;
  }

  /** What `fetch_latest_alert` returns: the alert or the "no alerts" reply. */
  datatype LatestAlertReply = Found(alert: Alert) | NoAlertsFound(city: string)

  /** `fetch_latest_alert`: the city's alert with the largest timestamp (on a
      tie, the one inserted last). */
  function FetchLatestAlert(alerts: seq<Alert>, city: string): (r: LatestAlertReply)
    ensures r.NoAlertsFound? <==> forall a :: a in alerts ==> a.city != city
    ensures r.NoAlertsFound? ==> r.city == city
    ensures r.Found? ==> r.alert in alerts && r.alert.city == city
    ensures r.Found? ==> forall a :: a in alerts && a.city == city ==> a.timestamp <= r.alert.timestamp
  {
    if alerts == [] then NoAlertsFound(city)
    else
      var pre := alerts[..|alerts| - 1];
      var last := alerts[|alerts| - 1];
      var best := FetchLatestAlert(pre, city);
      assert forall a :: a in alerts ==> a in pre || a == last;
      if last.city == city && (best.NoAlertsFound? || best.alert.timestamp <= last.timestamp) then Found(last)
      else best
  }

  /** The decision `send_email_alert` takes before any mail is built. */
  datatype EmailDecision = NoAlertsError(city: string) | Compose(alert: Alert)

  /** `send_email_alert` up to the mail itself: an error, and nothing sent,
      when the city has no alert; otherwise the latest alert is mailed. */
  function SendEmailAlert(alerts: seq<Alert>, city: string): (d: EmailDecision)
    ensures d.NoAlertsError? <==> forall a :: a in alerts ==> a.city != city
    ensures d.NoAlertsError? ==> d.city == city
    ensures d.Compose? ==> d.alert in alerts && d.alert.city == city
    ensures d.Compose? ==> forall a :: a in alerts && a.city == city ==> a.timestamp <= d.alert.timestamp
  {
    match FetchLatestAlert(alerts, city)
    case NoAlertsFound(_) => NoAlertsError(city)
    case Found(a) => Compose(a)
  }
}

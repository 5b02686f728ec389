/** The daily aggregation job: for each configured city not yet guarded in
    the cache and with observations today, one daily_summary row built from
    temperature statistics and the most frequent condition; the rows of a run
    are committed together or not at all. */
module WeatherSummary {
  import opened Records
  import opened Cache
  import opened WeatherFetch

  /** The cache key that marks a city's summary for a day as done. */
  function GuardKey(city: string, day: int): string
  {
    "daily_summary_" + city + "_" + IsoDate(day)
  }

  /** No guard key is ever a weather-cache key, so the fetch job's cache
      writes never mark a summary as done. */
  lemma GuardKeyNeverFetched(city: string, day: int, other: string)
    ensures GuardKey(city, day) != WeatherKey(other)
  {
    assert GuardKey(city, day)[0] == 'd';
    assert WeatherKey(other)[0] == 'w';
  }

  /** A guard key splits back into its city and its date: the date text
      holds no underscore, so the key's last underscore precedes it. */
  lemma SplitGuardKey(city: string, day: int)
    ensures var k := GuardKey(city, day);
            var n := |IsoDate(day)|;
            |k| == 15 + |city| + n && k[|k| - n..] == IsoDate(day)
            && k[|k| - n - 1] == '_' && k[14..|k| - n - 1] == city
  {
    SplitAround("daily_summary_", city, IsoDate(day));
  }

  lemma SplitAround(p: string, c: string, d: string)
    ensures var k := p + c + "_" + d;
            k[|k| - |d|..] == d && k[|k| - |d| - 1] == '_' && k[|p|..|k| - |d| - 1] == c
  {
    var k := p + c + "_" + d;
    assert k == (p + c) + ("_" + d);
    assert k[|p + c|..] == "_" + d;
    assert k[..|p + c|] == p + c;
  }

  /** A guard key names one city and one day: two keys are equal exactly
      when both the cities and the days are. */
  lemma GuardKeyInjective(c1: string, d1: int, c2: string, d2: int)
    ensures GuardKey(c1, d1) == GuardKey(c2, d2) <==> c1 == c2 && d1 == d2
  {
    if GuardKey(c1, d1) == GuardKey(c2, d2) {
      var k := GuardKey(c1, d1);
      var s1, s2 := IsoDate(d1), IsoDate(d2);
      SplitGuardKey(c1, d1);
      SplitGuardKey(c2, d2);
      IsoDateChars(d1);
      IsoDateChars(d2);
      if |s1| == |s2| {
        IsoDateInjective(d1, d2);
      }
    }
  }

  /** Writing the guard key of another city, or of another day, does not
      change whether a city is guarded today. */
  lemma GuardedIgnoresOtherKeys(entries: map<string, Entry>, city: string, now: int, other: string, day: int, e: Entry)
    requires other != city || day != DayOf(now)
    ensures Guarded(entries[GuardKey(other, day) := e], city, now) == Guarded(entries, city, now)
  {
    GuardKeyInjective(other, day, city, DayOf(now));
  }

  /** The rows of `city` whose timestamp falls on `day`, in table order. */
  function TodayRows(table: seq<WeatherData>, city: string, day: int): (r: seq<WeatherData>)
    ensures |r| <= |table|
    ensures forall x :: x in r <==> x in table && x.city == city && DayOf(x.timestamp) == day
  {
    if table == [] then []
    else
      var last := table[|table| - 1];
      TodayRows(table[..|table| - 1], city, day)
        + (if last.city == city && DayOf(last.timestamp) == day then [last] else [])
  }

  /** The day's rows of a city, every copy of each. */
  lemma {:induction false} TodayRowsCounts(table: seq<WeatherData>, city: string, day: int)
    ensures forall x :: multiset(TodayRows(table, city, day))[x]
              == if x.city == city && DayOf(x.timestamp) == day then multiset(table)[x] else 0
  {
    if table != [] {
      var pre := table[..|table| - 1];
      var last := table[|table| - 1];
      TodayRowsCounts(pre, city, day);
      assert table == pre + [last];
    }
  }

  /** The rows whose main condition is `main`, in order. */
  function Group(rows: seq<WeatherData>, main: string): (r: seq<WeatherData>)
    ensures |r| <= |rows|
    ensures forall x :: x in r <==> x in rows && x.main == main
  {
    if rows == [] then []
    else
      var last := rows[|rows| - 1];
      Group(rows[..|rows| - 1], main) + (if last.main == main then [last] else [])
  }

  /** A group keeps every copy of each row of its condition. */
  lemma {:induction false} GroupCounts(rows: seq<WeatherData>, main: string)
    ensures forall x :: multiset(Group(rows, main))[x] == if x.main == main then multiset(rows)[x] else 0
  {
    if rows != [] {
      var pre := rows[..|rows| - 1];
      var last := rows[|rows| - 1];
      GroupCounts(pre, main);
      assert rows == pre + [last];
    }
  }

  function Temps(rows: seq<WeatherData>): (ts: seq<real>)
    ensures |ts| == |rows|
    ensures forall i :: 0 <= i < |rows| ==> ts[i] == rows[i].tempCelsius
  {
    seq(|rows|, i requires 0 <= i < |rows| => rows[i].tempCelsius)
  }

  function Mains(rows: seq<WeatherData>): (ms: seq<string>)
    ensures |ms| == |rows|
    ensures forall i :: 0 <= i < |rows| ==> ms[i] == rows[i].main
  {
    seq(|rows|, i requires 0 <= i < |rows| => rows[i].main)
  }

  function Sum(xs: seq<real>): real
  {
    if xs == [] then 0.0 else Sum(xs[..|xs| - 1]) + xs[|xs| - 1]
  }

  /** `func.avg` over a non-empty group. */
  function Avg(xs: seq<real>): real
    requires |xs| > 0
  {
    Sum(xs) / (|xs| as real)
  }

  /** `func.max`: an element that no element exceeds. */
  function MaxOf(xs: seq<real>): (m: real)
    requires |xs| > 0
    ensures m in xs
    ensures forall x :: x in xs ==> x <= m
  {
    if |xs| == 1 then xs[0]
    else
      var pre := xs[..|xs| - 1];
      var m' := MaxOf(pre);
      assert forall x :: x in xs ==> x in pre || x == xs[|xs| - 1];
      if xs[|xs| - 1] > m' then xs[|xs| - 1] else m'
  }

  /** `func.min`: an element that exceeds no element. */
  function MinOf(xs: seq<real>): (m: real)
    requires |xs| > 0
    ensures m in xs
    ensures forall x :: x in xs ==> m <= x
  {
    if |xs| == 1 then xs[0]
    else
      var pre := xs[..|xs| - 1];
      var m' := MinOf(pre);
      assert forall x :: x in xs ==> x in pre || x == xs[|xs| - 1];
      if xs[|xs| - 1] < m' then xs[|xs| - 1] else m'
  }

  /** `m` added to itself `k` times. */
  function Scale(k: nat, m: real): real
  {
    if k == 0 then 0.0 else Scale(k - 1, m) + m
  }

  lemma {:induction false} ScaleIsProduct(k: nat, m: real)
    ensures Scale(k, m) == (k as real) * m
  {
    if k > 0 {
      ScaleIsProduct(k - 1, m);
    }
  }

  /** A lower bound of every element, taken n times, bounds the sum. */
  lemma {:induction false} SumAtLeast(xs: seq<real>, m: real)
    requires forall x :: x in xs ==> m <= x
    ensures Scale(|xs|, m) <= Sum(xs)
  {
    if xs != [] {
      var pre := xs[..|xs| - 1];
      assert forall x :: x in pre ==> x in xs;
      assert xs[|xs| - 1] in xs;
      SumAtLeast(pre, m);
    }
  }

  /** An upper bound of every element, taken n times, bounds the sum. */
  lemma {:induction false} SumAtMost(xs: seq<real>, m: real)
    requires forall x :: x in xs ==> x <= m
    ensures Sum(xs) <= Scale(|xs|, m)
  {
    if xs != [] {
      var pre := xs[..|xs| - 1];
      assert forall x :: x in pre ==> x in xs;
      assert xs[|xs| - 1] in xs;
      SumAtMost(pre, m);
    }
  }

  lemma QuotientBetween(s: real, n: nat, lo: real, hi: real)
    requires n > 0
    requires Scale(n, lo) <= s <= Scale(n, hi)
    ensures lo <= s / (n as real) <= hi
  {
    ScaleIsProduct(n, lo);
    ScaleIsProduct(n, hi);
    DivBetween(s, n as real, lo, hi);
  }

  lemma DivBetween(s: real, p: real, lo: real, hi: real)
    requires p > 0.0
    requires p * lo <= s <= p * hi
    ensures lo <= s / p <= hi
  {
    var q := s / p;
    assert q * p == s;
    assert (q - lo) * p == s - p * lo;
    assert (hi - q) * p == p * hi - s;
    NonNegFactor(q - lo, p);
    NonNegFactor(hi - q, p);
  }

  lemma NonNegFactor(a: real, p: real)
    requires p > 0.0 && a * p >= 0.0
    ensures a >= 0.0
  {
  }

  /** The average of a non-empty group lies between its minimum and maximum. */
  lemma AvgBetween(xs: seq<real>)
    requires |xs| > 0
    ensures MinOf(xs) <= Avg(xs) <= MaxOf(xs)
  {
    SumAtLeast(xs, MinOf(xs));
    SumAtMost(xs, MaxOf(xs));
    QuotientBetween(Sum(xs), |xs|, MinOf(xs), MaxOf(xs));
  }

  /** The number of occurrences of `x` in `xs`. */
  function Count(xs: seq<string>, x: string): nat
  {
    multiset(xs)[x]
  }

  /** Among `cands`, the first one whose count in `xs` no other candidate
      exceeds. */
  function MostFrequent(xs: seq<string>, cands: seq<string>): (r: string)
    requires |cands| > 0
    ensures r in cands
    ensures forall y :: y in cands ==> Count(xs, y) <= Count(xs, r)
  {
    if |cands| == 1 then cands[0]
    else
      var pre := cands[..|cands| - 1];
      var last := cands[|cands| - 1];
      var best := MostFrequent(xs, pre);
      assert forall y :: y in cands ==> y in pre || y == last;
      if Count(xs, last) > Count(xs, best) then last else best
  }

  /** `max(set(xs), key=xs.count)`, and None when there is nothing to count.
      Ties, which the source leaves to set iteration order, go to the
      earliest in `xs`. */
  function Dominant(xs: seq<string>): (r: Option<string>)
    ensures r.None? <==> xs == []
  {
    if xs == [] then None else Some(MostFrequent(xs, xs))
  }

  /** The dominant condition occurs in the list and occurs at least as often
      as every other condition. */
  lemma DominantIsMostFrequent(xs: seq<string>)
    ensures Dominant(xs).Some? ==> Dominant(xs).value in xs
    ensures Dominant(xs).Some? ==> forall y :: Count(xs, y) <= Count(xs, Dominant(xs).value)
  {
    if xs != [] {
      forall y
        ensures Count(xs, y) <= Count(xs, Dominant(xs).value)
      {
        if y !in xs {
          assert multiset(xs)[y] == 0;
        }
      }
    }
  }

  /** Two hazy readings and one clear reading give "Haze". */
  lemma DominantExample()
    ensures Dominant(["Haze", "Haze", "Clear"]) == Some("Haze")
  {
    var xs := ["Haze", "Haze", "Clear"];
    assert multiset(xs)["Haze"] == 2;
    assert multiset(xs)["Clear"] == 1;
    assert xs[..2][..1] == ["Haze"];
    assert xs[..2] == ["Haze", "Haze"];
  }

  /** The summary one city gets for `day`: none without observations that
      day; otherwise the statistics of the first condition group (the group
      of the first of the day's rows) and the dominant condition of all of
      the day's rows. */
  function SummaryFor(table: seq<WeatherData>, city: string, day: int): (s: Option<DailySummary>)
    ensures s.None? <==> TodayRows(table, city, day) == []
    ensures s.Some? ==> s.value.city == city && s.value.date == day
  {
    var today := TodayRows(table, city, day);
    if today == [] then None
    else
      var g := Temps(Group(today, today[0].main));
      assert today[0] in Group(today, today[0].main);
      Some(DailySummary(city, day, Avg(g), MaxOf(g), MinOf(g), Dominant(Mains(today))))
  }

  /** A summary's temperatures: min <= avg <= max, and the max and min are
      temperatures of rows of the day's first condition group, bounding
      every row of that group. */
  lemma SummaryStats(table: seq<WeatherData>, city: string, day: int)
    requires TodayRows(table, city, day) != []
    ensures var s := SummaryFor(table, city, day).value;
            var today := TodayRows(table, city, day);
            && s.minTemp <= s.avgTemp <= s.maxTemp
            && (exists x :: x in today && x.main == today[0].main && x.tempCelsius == s.maxTemp)
            && (exists x :: x in today && x.main == today[0].main && x.tempCelsius == s.minTemp)
            && (forall x :: x in today && x.main == today[0].main ==> s.minTemp <= x.tempCelsius <= s.maxTemp)
  {
    var today := TodayRows(table, city, day);
    var grp := Group(today, today[0].main);
    var g := Temps(grp);
    assert today[0] in grp;
    assert SummaryFor(table, city, day).value == DailySummary(city, day, Avg(g), MaxOf(g), MinOf(g), Dominant(Mains(today)));
    AvgBetween(g);
    GroupTempsBounds(grp);
  }

  /** The extremes of a non-empty list's temperatures are attained by rows
      of the list and bound every row of it. */
  lemma GroupTempsBounds(grp: seq<WeatherData>)
    requires grp != []
    ensures exists x :: x in grp && x.tempCelsius == MaxOf(Temps(grp))
    ensures exists x :: x in grp && x.tempCelsius == MinOf(Temps(grp))
    ensures forall x :: x in grp ==> MinOf(Temps(grp)) <= x.tempCelsius <= MaxOf(Temps(grp))
  {
    var g := Temps(grp);
    var k :| 0 <= k < |g| && g[k] == MaxOf(g);
    assert grp[k] in grp;
    var j :| 0 <= j < |g| && g[j] == MinOf(g);
    assert grp[j] in grp;
    forall x | x in grp
      ensures MinOf(g) <= x.tempCelsius <= MaxOf(g)
    {
      var i :| 0 <= i < |grp| && grp[i] == x;
      assert g[i] in g;
    }
  }

  /** A summary's dominant condition is a condition of the day at least as
      frequent as every other. */
  lemma SummaryDominant(table: seq<WeatherData>, city: string, day: int)
    requires TodayRows(table, city, day) != []
    ensures var s := SummaryFor(table, city, day).value;
            var today := TodayRows(table, city, day);
            && s.dominantCondition.Some?
            && s.dominantCondition.value in Mains(today)
            && forall m :: Count(Mains(today), m) <= Count(Mains(today), s.dominantCondition.value)
  {
    var today := TodayRows(table, city, day);
    assert SummaryFor(table, city, day).value.dominantCondition == Dominant(Mains(today));
    DominantIsMostFrequent(Mains(today));
  }

  /** When every observation of the day shares one condition, the group is
      the whole day and the statistics are the day's. */
  lemma OneConditionIsWholeDay(table: seq<WeatherData>, city: string, day: int)
    requires TodayRows(table, city, day) != []
    requires forall x :: x in TodayRows(table, city, day) ==> x.main == TodayRows(table, city, day)[0].main
    ensures var today := TodayRows(table, city, day);
            var s := SummaryFor(table, city, day).value;
            && s.avgTemp == Avg(Temps(today))
            && s.maxTemp == MaxOf(Temps(today))
            && s.minTemp == MinOf(Temps(today))
  {
    var today := TodayRows(table, city, day);
    GroupOfOne(today, today[0].main);
  }

  lemma {:induction false} GroupOfOne(rows: seq<WeatherData>, main: string)
    requires forall x :: x in rows ==> x.main == main
    ensures Group(rows, main) == rows
  {
    if rows != [] {
      var pre := rows[..|rows| - 1];
      var last := rows[|rows| - 1];
      forall x | x in pre
        ensures x.main == main
      {
        assert x in rows;
      }
      GroupOfOne(pre, main);
      assert last in rows;
      assert Group(rows, main) == pre + [last];
      assert pre + [last] == rows;
    }
  }

  /** A row of another city or another day leaves the summary unchanged. */
  lemma SummaryIgnoresOtherRows(table: seq<WeatherData>, x: WeatherData, city: string, day: int)
    requires x.city != city || DayOf(x.timestamp) != day
    ensures SummaryFor(table + [x], city, day) == SummaryFor(table, city, day)
  {
    assert (table + [x])[..|table|] == table;
    assert TodayRows(table + [x], city, day) == TodayRows(table, city, day);
  }

  /** Whether the guard key of `city` for the day of `now` is present. */
  predicate Guarded(entries: map<string, Entry>, city: string, now: int)
  {
    Lookup(entries, GuardKey(city, DayOf(now)), now).Some?
  }

  /** The rows a run adds for one city: none when it is guarded, else its
      summary if it has one. */
  function CitySummary(table: seq<WeatherData>, entries: map<string, Entry>, city: string, now: int): (r: seq<DailySummary>)
    ensures |r| <= 1
    ensures forall s :: s in r ==> s.city == city && s.date == DayOf(now)
  {
    if Guarded(entries, city, now) then [] else Rows(SummaryFor(table, city, DayOf(now)))
  }

  /** The rows one run adds over `cities`, city by city. */
  function NewSummaries(cities: seq<string>, table: seq<WeatherData>, entries: map<string, Entry>, now: int): (r: seq<DailySummary>)
    ensures |r| <= |cities|
    ensures forall s :: s in r ==> s.city in cities && s.date == DayOf(now)
  {
    if cities == [] then []
    else
      var pre := cities[..|cities| - 1];
      var c := cities[|cities| - 1];
      assert forall d :: d in pre ==> d in cities;
      NewSummaries(pre, table, entries, now) + CitySummary(table, entries, c, now)
  }

  lemma NewSummariesStep(cities: seq<string>, table: seq<WeatherData>, entries: map<string, Entry>, now: int, i: nat)
    requires i < |cities|
    ensures NewSummaries(cities[..i + 1], table, entries, now)
            == NewSummaries(cities[..i], table, entries, now) + CitySummary(table, entries, cities[i], now)
  {
    assert cities[..i + 1][..i] == cities[..i];
  }

  /** The rows of one city, in order. */
  function SummariesOf(rows: seq<DailySummary>, city: string): (r: seq<DailySummary>)
    ensures forall s :: s in r <==> s in rows && s.city == city
  {
    if rows == [] then []
    else
      var last := rows[|rows| - 1];
      SummariesOf(rows[..|rows| - 1], city) + (if last.city == city then [last] else [])
  }

  lemma {:induction false} SummariesOfConcat(a: seq<DailySummary>, b: seq<DailySummary>, city: string)
    ensures SummariesOf(a + b, city) == SummariesOf(a, city) + SummariesOf(b, city)
  {
    if b != [] {
      var b' := b[..|b| - 1];
      var x := b[|b| - 1];
      assert (a + b)[..|a + b| - 1] == a + b';
      assert (a + b)[|a + b| - 1] == x;
      SummariesOfConcat(a, b', city);
      var tail := if x.city == city then [x] else [];
      assert SummariesOf(a + b, city) == SummariesOf(a + b', city) + tail;
      assert SummariesOf(b, city) == SummariesOf(b', city) + tail;
    } else {
      assert a + b == a;
    }
  }

  lemma SummariesOfOneCity(rows: seq<DailySummary>, d: string, city: string)
    requires |rows| <= 1
    requires forall s :: s in rows ==> s.city == d
    ensures SummariesOf(rows, city) == if d == city then rows else []
  {
    if rows != [] {
      assert rows[0] in rows;
      assert rows[..0] == [];
    }
  }

  /** With distinct cities, a run adds for each city nothing when it is not
      listed, is guarded, or has no observation today, and otherwise exactly
      its one summary. */
  lemma {:induction false} NewSummariesOfCity(cities: seq<string>, table: seq<WeatherData>, entries: map<string, Entry>, now: int, city: string)
    requires Distinct(cities)
    ensures SummariesOf(NewSummaries(cities, table, entries, now), city)
            == if city in cities then CitySummary(table, entries, city, now) else []
  {
    if cities != [] {
      var pre := cities[..|cities| - 1];
      var c := cities[|cities| - 1];
      assert Distinct(pre);
      assert c !in pre;
      assert forall d :: d in cities ==> d in pre || d == c;
      NewSummariesOfCity(pre, table, entries, now, city);
      SummariesOfConcat(NewSummaries(pre, table, entries, now), CitySummary(table, entries, c, now), city);
      SummariesOfOneCity(CitySummary(table, entries, c, now), c, city);
    }
  }

  /** A listed city gets exactly one new row when its guard is absent and it
      has observations today, and none otherwise. */
  lemma NewSummariesCount(table: seq<WeatherData>, entries: map<string, Entry>, now: int, city: string)
    ensures |SummariesOf(NewSummaries(CITIES, table, entries, now), city)|
            == if city in CITIES && !Guarded(entries, city, now) && TodayRows(table, city, DayOf(now)) != [] then 1 else 0
  {
    CitiesDistinct();
    NewSummariesOfCity(CITIES, table, entries, now, city);
  }

  /** The job is an insert: running it twice on the same day, with the guard
      absent both times, leaves two rows for a city that has observations. */
  lemma RerunDuplicates(old_rows: seq<DailySummary>, table: seq<WeatherData>, entries: map<string, Entry>, now: int, city: string)
    requires city in CITIES && !Guarded(entries, city, now)
    requires TodayRows(table, city, DayOf(now)) != []
    ensures var run := NewSummaries(CITIES, table, entries, now);
            |SummariesOf(old_rows + run + run, city)| == |SummariesOf(old_rows, city)| + 2
  {
    var run := NewSummaries(CITIES, table, entries, now);
    NewSummariesCount(table, entries, now, city);
    SummariesOfConcat(old_rows, run, city);
    SummariesOfConcat(old_rows + run, run, city);
  }

  /** One city's turn in `calculate_daily_summaries`: skip it when its
      guard key is present or it has no observation today, else build its
      row from the grouped statistics and the dominant condition. */
  method SummarizeCity(table: seq<WeatherData>, redis: Redis, city: string, now: int)
    returns (rows: seq<DailySummary>)
    ensures rows == CitySummary(table, redis.entries, city, now)
  {
    var day := DayOf(now);
    var cached := redis.Get(GuardKey(city, day), now);
    if cached.Some? {
      return [];
    }
    var today := TodayRows(table, city, day);
    if today == [] {
      return [];
    }
    var group := Group(today, today[0].main);
    assert today[0] in group;
    var temps := Temps(group);
    rows := [DailySummary(city, day, Avg(temps), MaxOf(temps), MinOf(temps), Dominant(Mains(today)))];
  }

  /** The loop of `calculate_daily_summaries` over `cities`: the rows added
      to the session city by city, up to the city whose turn raises
      (`failAt`). */
  method CollectSummaries(cities: seq<string>, table: seq<WeatherData>, redis: Redis, now: int, failAt: Option<nat>)
    returns (pending: seq<DailySummary>, raised: bool)
    ensures raised <==> failAt.Some? && failAt.value < |cities|
    ensures !raised ==> pending == NewSummaries(cities, table, redis.entries, now)
  {
    pending := [];
    var stop: nat := if failAt.Some? then failAt.value else |cities|;
    var i := 0;
    while i < |cities| && i < stop
      invariant 0 <= i <= |cities| && i <= stop
      invariant pending == NewSummaries(cities[..i], table, redis.entries, now)
    {
      NewSummariesStep(cities, table, redis.entries, now, i);
      var rows := SummarizeCity(table, redis, cities[i], now);
      pending := pending + rows;
      i := i + 1;
    }
    raised := i < |cities|;
    assert !raised ==> cities[..i] == cities;
  }

  /** `calculate_daily_summaries`: one pass over CITIES adding rows to the
      session, then one commit. `failAt` stands for an exception: Some(i)
      raises while city i is handled (or at the commit, when i is past the
      last city), and the rollback discards every row of the run. The cache
      is only read. */
  method CalculateDailySummaries(db: Store, redis: Redis, now: int, failAt: Option<nat>)
    modifies db
    ensures failAt.None? ==> db.summaries == old(db.summaries) + NewSummaries(CITIES, db.weather, redis.entries, now)
    ensures failAt.Some? ==> db.summaries == old(db.summaries)
    ensures db.weather == old(db.weather) && db.alerts == old(db.alerts)
  {
    var pending, raised := CollectSummaries(CITIES, db.weather, redis, now, failAt);
    if failAt.None? {
      db.summaries := db.summaries + pending;
    }
  }
}

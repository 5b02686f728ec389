/** The fetch pipeline: cache-aside lookup of the current weather, Kelvin
    conversion and persistence of one row, the latest-row-per-city query, and
    the scheduled tick over every configured city. */
module WeatherFetch {
  import opened Records
  import opened Cache

  /** Seconds a fetched document stays in the cache. */
  const REDIS_EXPIRY_TIME: int := 299

  /** The cache key of a city's current-weather document. */
  function WeatherKey(city: string): string
  {
    "weather_data_" + city
  }

  lemma WeatherKeyInjective(a: string, b: string)
    requires WeatherKey(a) == WeatherKey(b)
    ensures a == b
  {
    var p := "weather_data_";
    assert a == WeatherKey(a)[|p|..];
    assert b == WeatherKey(b)[|p|..];
  }

  /** An HTTP answer of the weather provider, with its body already decoded. */
  datatype Response = Response(status: int, body: Payload)

  /** The weather provider. `reply` says what it answers for a city; every
      request the pipeline sends is logged in `requests`. */
  class WeatherApi {
    const reply: string -> Response
    var requests: seq<string>

    constructor (reply: string -> Response)
      ensures this.reply == reply && requests == []
    {
      this.reply := reply;
      requests := [];
    }

    method Get(city: string) returns (resp: Response)
      modifies this
      ensures resp == reply(city)
      ensures requests == old(requests) + [city]
    {
      resp := reply(city);
      requests := requests + [city];
    }
  }

  /** What one `fetch_weather_data` call returns, the cache it leaves behind
      and whether it sent a request upstream. A non-200 status is the error. */
  datatype FetchOutcome = FetchOutcome(result: Result<Payload, int>, entries: map<string, Entry>, requested: bool)

  function Fetch(entries: map<string, Entry>, city: string, now: int, reply: string -> Response): (o: FetchOutcome)
    // a hit: the cached document, no request, cache untouched
    ensures Lookup(entries, WeatherKey(city), now).Some? ==>
              o == FetchOutcome(Ok(Lookup(entries, WeatherKey(city), now).value), entries, false)
    // a miss always asks upstream
    ensures Lookup(entries, WeatherKey(city), now).None? ==> o.requested
    // a miss answered with a non-200 status fails with that status and leaves the cache alone
    ensures Lookup(entries, WeatherKey(city), now).None? && reply(city).status != 200 ==>
              o.result == Err(reply(city).status) && o.entries == entries
    // a miss answered with 200 returns the body and caches it for REDIS_EXPIRY_TIME seconds
    ensures Lookup(entries, WeatherKey(city), now).None? && reply(city).status == 200 ==>
              o.result == Ok(reply(city).body) &&
              o.entries == Stored(entries, WeatherKey(city), REDIS_EXPIRY_TIME, reply(city).body, now) &&
              (forall t :: now <= t < now + REDIS_EXPIRY_TIME ==>
                 Lookup(o.entries, WeatherKey(city), t) == Some(reply(city).body)) &&
              (forall k :: k != WeatherKey(city) ==> Lookup(o.entries, k, now) == Lookup(entries, k, now))
  {
    var key := WeatherKey(city);
    var cached := Lookup(entries, key, now);
    if cached.Some? then FetchOutcome(Ok(cached.value), entries, false)
    else
      var resp := reply(city);
      if resp.status != 200 then FetchOutcome(Err(resp.status), entries, true)
      else FetchOutcome(Ok(resp.body), Stored(entries, key, REDIS_EXPIRY_TIME, resp.body, now), true)
  }

  /** `fetch_weather_data`: cache-aside read of a city's current weather. */
  method FetchWeatherData(redis: Redis, api: WeatherApi, city: string, now: int) returns (r: Result<Payload, int>)
    modifies redis, api
    ensures var o := Fetch(old(redis.entries), city, now, api.reply);
            r == o.result && redis.entries == o.entries &&
            api.requests == old(api.requests) + (if o.requested then [city] else [])
  {
    var key := WeatherKey(city);
    var cached := redis.Get(key, now);
    if cached.Some? {
      return Ok(cached.value);
    }
    var resp := api.Get(city);
    if resp.status != 200 {
      return Err(resp.status);
    }
    redis.SetEx(key, REDIS_EXPIRY_TIME, resp.body, now);
    r := Ok(resp.body);
  }

  function KelvinToCelsius(k: real): real
  {
    k - 273.15
  }

  function KelvinToFahrenheit(k: real): real
  {
    (k - 273.15) * 9.0 / 5.0 + 32.0
  }

  /** The unit conversion `process_weather_data` applies to both temperatures. */
  function Converted(k: real, userPrefCelsius: bool): real
  {
    if userPrefCelsius then KelvinToCelsius(k) else KelvinToFahrenheit(k)
  }

  /** Freezing and room temperature land where they should, Fahrenheit is the
      Celsius value rescaled, and both conversions are strictly increasing. */
  lemma ConversionFacts(k1: real, k2: real)
    ensures KelvinToCelsius(273.15) == 0.0 && KelvinToFahrenheit(273.15) == 32.0
    ensures KelvinToCelsius(293.15) == 20.0 && KelvinToFahrenheit(293.15) == 68.0
    ensures KelvinToFahrenheit(k1) == KelvinToCelsius(k1) * 9.0 / 5.0 + 32.0
    ensures k1 < k2 ==> Converted(k1, true) < Converted(k2, true) && Converted(k1, false) < Converted(k2, false)
  {
  }

  /** Every key `process_weather_data` reads is present. */
  predicate WellFormed(p: Payload)
  {
    && p.name.Some?
    && p.main.Some? && p.main.value.temp.Some? && p.main.value.feelsLike.Some?
    && p.main.value.humidity.Some? && p.main.value.pressure.Some?
    && p.wind.Some? && p.wind.value.speed.Some?
    && p.weather.Some? && |p.weather.value| > 0
    && p.weather.value[0].main.Some? && p.weather.value[0].description.Some?
    && p.visibility.Some?
  }

  /** The row `process_weather_data` builds from a document, or None when a
      key is missing. The row's city is the document's `name`. */
  function ToRecord(p: Payload, userPrefCelsius: bool, now: int): (r: Option<WeatherData>)
    ensures r.Some? <==> WellFormed(p)
    ensures r.Some? ==>
              && r.value.city == p.name.value
              && r.value.main == p.weather.value[0].main.value
              && r.value.description == p.weather.value[0].description.value
              && r.value.humidity == p.main.value.humidity.value
              && r.value.windSpeed == p.wind.value.speed.value
              && r.value.pressure == p.main.value.pressure.value
              && r.value.visibility == p.visibility.value
              && r.value.tempCelsius == Converted(p.main.value.temp.value, userPrefCelsius)
              && r.value.feelsLike == Converted(p.main.value.feelsLike.value, userPrefCelsius)
              && r.value.timestamp == now
  {
    if !WellFormed(p) then None
    else
      var m := p.main.value;
      var c := p.weather.value[0];
      Some(WeatherData(
        city := p.name.value,
        main := c.main.value,
        description := c.description.value,
        tempCelsius := Converted(m.temp.value, userPrefCelsius),
        feelsLike := Converted(m.feelsLike.value, userPrefCelsius),
        humidity := m.humidity.value,
        windSpeed := p.wind.value.speed.value,
        pressure := m.pressure.value,
        visibility := p.visibility.value,
        timestamp := now))
  }

  /** `process_weather_data`: read every key, convert, append one row and
      commit; a missing key rolls back, appends nothing and returns None. */
  method ProcessWeatherData(db: Store, data: Payload, now: int, userPrefCelsius: bool) returns (row: Option<WeatherData>)
    modifies db
    ensures row == ToRecord(data, userPrefCelsius, now)
    ensures db.weather == old(db.weather) + Rows(row)
    ensures db.summaries == old(db.summaries) && db.alerts == old(db.alerts)
  {
    if data.main.None? || data.wind.None? || data.weather.None? {
      return None;
    }
    var m := data.main.value;
    if m.temp.None? || m.feelsLike.None? || m.humidity.None? || m.pressure.None? {
      return None;
    }
    if data.wind.value.speed.None? || |data.weather.value| == 0 {
      return None;
    }
    var c := data.weather.value[0];
    if c.main.None? || c.description.None? || data.visibility.None? || data.name.None? {
      return None;
    }
    var tempCelsius := Converted(m.temp.value, userPrefCelsius);
    var feelsLike := Converted(m.feelsLike.value, userPrefCelsius);
    var w := WeatherData(data.name.value, c.main.value, c.description.value, tempCelsius, feelsLike,
                         m.humidity.value, data.wind.value.speed.value, m.pressure.value,
                         data.visibility.value, now);
    db.weather := db.weather + [w];
    row := Some(w);
  }

  /** The largest timestamp among some rows. */
  function MaxTimestamp(rows: seq<WeatherData>): (t: int)
    requires |rows| > 0
    ensures exists x :: x in rows && x.timestamp == t
    ensures forall x :: x in rows ==> x.timestamp <= t
  {
    if |rows| == 1 then rows[0].timestamp
    else
      var t0 := MaxTimestamp(rows[..|rows| - 1]);
      assert forall x :: x in rows[..|rows| - 1] ==> x in rows;
      assert forall x :: x in rows ==> x in rows[..|rows| - 1] || x == rows[|rows| - 1];
      if rows[|rows| - 1].timestamp > t0 then rows[|rows| - 1].timestamp else t0
  }

  /** A row no other row of its city is newer than. */
  ghost predicate IsNewestOfCity(x: WeatherData, table: seq<WeatherData>)
  {
    forall y :: y in table && y.city == x.city ==> y.timestamp <= x.timestamp
  }

  /** `get_weather_data_from_db`: the rows whose city is listed and whose
      timestamp is the largest of that city (all of them on a tie), each as
      many times as the table holds it, in table order. */
  function GetWeatherDataFromDb(table: seq<WeatherData>, cities: seq<string>): (r: seq<WeatherData>)
    ensures forall x :: x in r <==> x in table && x.city in cities && IsNewestOfCity(x, table)
    ensures forall x :: multiset(r)[x] == if x.city in cities && IsNewestOfCity(x, table) then multiset(table)[x] else 0
  {
    LatestCounts(table, cities);
    LatestOf(table, cities, |table|)
  }

  /** The rows of table[..n] that the latest-per-city join keeps. */
  function LatestOf(table: seq<WeatherData>, cities: seq<string>, n: nat): seq<WeatherData>
    requires n <= |table|
  {
    if n == 0 then [] else LatestOf(table, cities, n - 1) + (if Kept(table, cities, table[n - 1]) then [table[n - 1]] else [])
  }

  /** The join condition: a listed city's row whose timestamp is its city's
      maximum. */
  predicate Kept(table: seq<WeatherData>, cities: seq<string>, x: WeatherData)
  {
    x.city in cities && OfCity(table, x.city) != [] && x.timestamp == MaxTimestamp(OfCity(table, x.city))
  }

  /** The join keeps every copy of each newest row of a listed city:
      duplicates in the table are duplicates in the answer. */
  lemma LatestCounts(table: seq<WeatherData>, cities: seq<string>)
    ensures forall x :: multiset(LatestOf(table, cities, |table|))[x]
              == if x.city in cities && IsNewestOfCity(x, table) then multiset(table)[x] else 0
  {
    assert table[..|table|] == table;
    forall x
      ensures multiset(LatestOf(table, cities, |table|))[x]
              == if x.city in cities && IsNewestOfCity(x, table) then multiset(table)[x] else 0
    {
      LatestOfCount(table, cities, |table|, x);
      if x in table {
        assert x in OfCity(table, x.city);
      }
    }
  }

  lemma {:induction false} LatestOfCount(table: seq<WeatherData>, cities: seq<string>, n: nat, x: WeatherData)
    requires n <= |table|
    ensures multiset(LatestOf(table, cities, n))[x] == if Kept(table, cities, x) then multiset(table[..n])[x] else 0
  {
    if n > 0 {
      LatestOfCount(table, cities, n - 1, x);
      LatestOfStep(table, cities, n);
      PrefixSnoc(table, n);
      CountStep(LatestOf(table, cities, n - 1), table[..n - 1], table[n - 1], Kept(table, cities, table[n - 1]),
                x, Kept(table, cities, x), LatestOf(table, cities, n), table[..n]);
    }
  }

  lemma LatestOfStep(table: seq<WeatherData>, cities: seq<string>, n: nat)
    requires 0 < n <= |table|
    ensures LatestOf(table, cities, n)
            == LatestOf(table, cities, n - 1) + (if Kept(table, cities, table[n - 1]) then [table[n - 1]] else [])
  {
  }

  /** One step of a filter over a prefix: appending `w` to the source and,
      when it is kept, to the result keeps the counts in step. */
  lemma CountStep(kept: seq<WeatherData>, src: seq<WeatherData>, w: WeatherData, kw: bool, x: WeatherData, kx: bool,
                  kept': seq<WeatherData>, src': seq<WeatherData>)
    requires multiset(kept)[x] == if kx then multiset(src)[x] else 0
    requires x == w ==> kx == kw
    requires kept' == kept + (if kw then [w] else [])
    requires src' == src + [w]
    ensures multiset(kept')[x] == if kx then multiset(src')[x] else 0
  {
  }

  lemma PrefixSnoc(table: seq<WeatherData>, n: nat)
    requires 0 < n <= |table|
    ensures table[..n] == table[..n - 1] + [table[n - 1]]
  {
  }

  /** Rows for one city at t1 < t2 < t3: only the newest comes back. */
  lemma LatestOfThreeIsNewest(a: WeatherData, b: WeatherData, c: WeatherData)
    requires a.city == b.city == c.city == "Delhi"
    requires a.timestamp < b.timestamp < c.timestamp
    ensures forall x :: x in GetWeatherDataFromDb([a, b, c], CITIES) <==> x == c
  {
    assert !IsNewestOfCity(a, [a, b, c]) && !IsNewestOfCity(b, [a, b, c]);
  }

  /** The pipeline's shared state: cache entries, weather table, request log. */
  datatype PipelineState = PipelineState(entries: map<string, Entry>, weather: seq<WeatherData>, requests: seq<string>)

  /** The rows one city's `fetch_and_process_city_weather` writes, in Celsius:
      none on a fetch error or a malformed document, else one. */
  function CityRows(entries: map<string, Entry>, city: string, now: int, reply: string -> Response): (rows: seq<WeatherData>)
    ensures |rows| <= 1
  {
    var o := Fetch(entries, city, now, reply);
    if o.result.Ok? then Rows(ToRecord(o.result.value, true, now)) else []
  }

  /** `fetch_and_process_city_weather`: an error anywhere is caught and the
      city is done; otherwise the document, fetched or cached, is persisted. */
  function CityStep(s: PipelineState, city: string, now: int, reply: string -> Response): (r: PipelineState)
    ensures s.weather <= r.weather && |r.weather| <= |s.weather| + 1
    ensures s.requests <= r.requests && r.requests[|s.requests|..] in {[], [city]}
  {
    var o := Fetch(s.entries, city, now, reply);
    PipelineState(o.entries, s.weather + CityRows(s.entries, city, now, reply),
                  s.requests + (if o.requested then [city] else []))
  }

  method FetchAndProcessCityWeather(redis: Redis, api: WeatherApi, db: Store, city: string, now: int)
    modifies redis, api, db
    ensures PipelineState(redis.entries, db.weather, api.requests)
            == CityStep(PipelineState(old(redis.entries), old(db.weather), old(api.requests)), city, now, api.reply)
    ensures db.summaries == old(db.summaries) && db.alerts == old(db.alerts)
  {
    var r := FetchWeatherData(redis, api, city, now);
    if r.Ok? {
      var _ := ProcessWeatherData(db, r.value, now, true);
    }
  }

  /** The cities processed one after another, in list order. */
  function Tick(s: PipelineState, cities: seq<string>, now: int, reply: string -> Response): (r: PipelineState)
    ensures s.weather <= r.weather && |r.weather| <= |s.weather| + |cities|
    ensures s.requests <= r.requests && |r.requests| <= |s.requests| + |cities|
    ensures forall i :: |s.requests| <= i < |r.requests| ==> r.requests[i] in cities
  {
    if cities == [] then s
    else CityStep(Tick(s, cities[..|cities| - 1], now, reply), cities[|cities| - 1], now, reply)
  }

  /** `scheduled_fetch_weather`: one tick over CITIES. */
  method ScheduledFetchWeather(redis: Redis, api: WeatherApi, db: Store, now: int)
    modifies redis, api, db
    ensures PipelineState(redis.entries, db.weather, api.requests)
            == Tick(PipelineState(old(redis.entries), old(db.weather), old(api.requests)), CITIES, now, api.reply)
    ensures db.summaries == old(db.summaries) && db.alerts == old(db.alerts)
  {
    ghost var s0 := PipelineState(redis.entries, db.weather, api.requests);
    for i := 0 to |CITIES|
      invariant PipelineState(redis.entries, db.weather, api.requests) == Tick(s0, CITIES[..i], now, api.reply)
      invariant db.summaries == old(db.summaries) && db.alerts == old(db.alerts)
    {
      assert CITIES[..i + 1][..i] == CITIES[..i];
      FetchAndProcessCityWeather(redis, api, db, CITIES[i], now);
    }
    assert CITIES[..|CITIES|] == CITIES;
  }

  /** Each city's rows as computed from the cache at the start of the tick. */
  function TickRows(entries: map<string, Entry>, cities: seq<string>, now: int, reply: string -> Response): seq<WeatherData>
  {
    if cities == [] then []
    else TickRows(entries, cities[..|cities| - 1], now, reply) + CityRows(entries, cities[|cities| - 1], now, reply)
  }

  /** The cities a tick asks upstream for: those that miss the starting cache. */
  function Missed(entries: map<string, Entry>, cities: seq<string>, now: int): seq<string>
  {
    if cities == [] then []
    else
      var c := cities[|cities| - 1];
      Missed(entries, cities[..|cities| - 1], now) + (if Lookup(entries, WeatherKey(c), now).None? then [c] else [])
  }

  predicate SameAt(m1: map<string, Entry>, m2: map<string, Entry>, k: string)
  {
    (k in m1 <==> k in m2) && (k in m1 ==> m1[k] == m2[k])
  }

  /** A tick touches only the cache keys of the cities it processes. */
  lemma {:induction false} TickKeepsOtherKeys(s: PipelineState, cities: seq<string>, now: int, reply: string -> Response, c: string)
    requires c !in cities
    ensures SameAt(Tick(s, cities, now, reply).entries, s.entries, WeatherKey(c))
  {
    if cities != [] {
      var pre := cities[..|cities| - 1];
      var last := cities[|cities| - 1];
      assert c !in pre by { assert forall x :: x in pre ==> x in cities; }
      TickKeepsOtherKeys(s, pre, now, reply, c);
      if WeatherKey(c) == WeatherKey(last) {
        WeatherKeyInjective(c, last);
      }
    }
  }

  /** Failure isolation: with distinct cities, what a tick appends and asks
      upstream for is each city's own outcome against the starting cache,
      whatever happened to the cities before it. */
  lemma TickIsolation(s: PipelineState, cities: seq<string>, now: int, reply: string -> Response)
    requires Distinct(cities)
    ensures Tick(s, cities, now, reply).weather == s.weather + TickRows(s.entries, cities, now, reply)
    ensures Tick(s, cities, now, reply).requests == s.requests + Missed(s.entries, cities, now)
  {
    TickWeather(s, cities, now, reply);
    TickRequests(s, cities, now, reply);
  }

  lemma {:induction false} TickWeather(s: PipelineState, cities: seq<string>, now: int, reply: string -> Response)
    requires Distinct(cities)
    ensures Tick(s, cities, now, reply).weather == s.weather + TickRows(s.entries, cities, now, reply)
  {
    if cities != [] {
      var pre := cities[..|cities| - 1];
      var last := cities[|cities| - 1];
      assert Distinct(pre);
      assert last !in pre;
      TickWeather(s, pre, now, reply);
      TickKeepsOtherKeys(s, pre, now, reply, last);
      var e := Tick(s, pre, now, reply).entries;
      FetchDependsOnLookup(e, s.entries, last, now, reply);
      assert Tick(s, cities, now, reply).weather == Tick(s, pre, now, reply).weather + CityRows(e, last, now, reply);
      assert TickRows(s.entries, cities, now, reply) == TickRows(s.entries, pre, now, reply) + CityRows(s.entries, last, now, reply);
    }
  }

  lemma {:induction false} TickRequests(s: PipelineState, cities: seq<string>, now: int, reply: string -> Response)
    requires Distinct(cities)
    ensures Tick(s, cities, now, reply).requests == s.requests + Missed(s.entries, cities, now)
  {
    if cities != [] {
      var pre := cities[..|cities| - 1];
      var last := cities[|cities| - 1];
      assert Distinct(pre);
      assert last !in pre;
      TickRequests(s, pre, now, reply);
      TickKeepsOtherKeys(s, pre, now, reply, last);
      var e := Tick(s, pre, now, reply).entries;
      FetchDependsOnLookup(e, s.entries, last, now, reply);
      var asked := Fetch(e, last, now, reply).requested;
      assert asked == Lookup(s.entries, WeatherKey(last), now).None?;
      assert Tick(s, cities, now, reply).requests == Tick(s, pre, now, reply).requests + (if asked then [last] else []);
    }
  }

  /** What one city's fetch returns, and whether it asks upstream, depend on
      its own cache key alone. */
  lemma FetchDependsOnLookup(e1: map<string, Entry>, e2: map<string, Entry>, city: string, now: int, reply: string -> Response)
    requires Lookup(e1, WeatherKey(city), now) == Lookup(e2, WeatherKey(city), now)
    ensures Fetch(e1, city, now, reply).result == Fetch(e2, city, now, reply).result
    ensures Fetch(e1, city, now, reply).requested == Fetch(e2, city, now, reply).requested
    ensures CityRows(e1, city, now, reply) == CityRows(e2, city, now, reply)
  {
  }

  lemma {:induction false} TickRowsHas(entries: map<string, Entry>, cities: seq<string>, now: int, reply: string -> Response, i: nat)
    requires i < |cities|
    ensures forall x :: x in CityRows(entries, cities[i], now, reply) ==> x in TickRows(entries, cities, now, reply)
  {
    var pre := cities[..|cities| - 1];
    if i < |cities| - 1 {
      TickRowsHas(entries, pre, now, reply, i);
    }
  }

  /** Every listed city whose document can be obtained (from the cache or
      with status 200) and has every key gets its Celsius row stored in the
      tick, whatever the other cities' outcomes. */
  lemma TickStoresEachFetchedCity(s: PipelineState, cities: seq<string>, now: int, reply: string -> Response, c: string, p: Payload)
    requires Distinct(cities) && c in cities
    requires Fetch(s.entries, c, now, reply).result == Ok(p) && WellFormed(p)
    ensures ToRecord(p, true, now).Some?
    ensures |s.weather| <= |Tick(s, cities, now, reply).weather|
    ensures ToRecord(p, true, now).value in Tick(s, cities, now, reply).weather[|s.weather|..]
    ensures ToRecord(p, true, now).value.tempCelsius == KelvinToCelsius(p.main.value.temp.value)
  {
    TickIsolation(s, cities, now, reply);
    var i :| 0 <= i < |cities| && cities[i] == c;
    TickRowsHas(s.entries, cities, now, reply, i);
    assert Tick(s, cities, now, reply).weather[|s.weather|..] == TickRows(s.entries, cities, now, reply);
  }

  /** A cached document is persisted again: a hit still writes a row, and
      sends no request for that city. */
  lemma TickPersistsOnCacheHit(s: PipelineState, cities: seq<string>, now: int, reply: string -> Response, c: string)
    requires Distinct(cities) && c in cities
    requires Lookup(s.entries, WeatherKey(c), now).Some?
    requires WellFormed(Lookup(s.entries, WeatherKey(c), now).value)
    ensures |s.weather| <= |Tick(s, cities, now, reply).weather|
    ensures |s.requests| <= |Tick(s, cities, now, reply).requests|
    ensures ToRecord(Lookup(s.entries, WeatherKey(c), now).value, true, now).value
            in Tick(s, cities, now, reply).weather[|s.weather|..]
    ensures c !in Tick(s, cities, now, reply).requests[|s.requests|..]
  {
    var p := Lookup(s.entries, WeatherKey(c), now).value;
    TickStoresEachFetchedCity(s, cities, now, reply, c, p);
    TickIsolation(s, cities, now, reply);
    MissedOnlyMisses(s.entries, cities, now, c);
    assert Tick(s, cities, now, reply).requests[|s.requests|..] == Missed(s.entries, cities, now);
  }

  lemma {:induction false} MissedOnlyMisses(entries: map<string, Entry>, cities: seq<string>, now: int, c: string)
    requires Lookup(entries, WeatherKey(c), now).Some?
    ensures c !in Missed(entries, cities, now)
  {
    if cities != [] {
      MissedOnlyMisses(entries, cities[..|cities| - 1], now, c);
    }
  }
}

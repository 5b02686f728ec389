# Weather pipeline core, modelled in Dafny

This project models the core of a weather service that polls an upstream
provider for a fixed list of Indian cities. It persists one observation
row per city per fetch, aggregates a daily summary per city, and raises
threshold alerts. The modelled operations are:

- **Fetch pipeline** (`service/weatherFetch.py`):
  - the cache-aside lookup of a city's current weather (`fetch_weather_data`);
  - the Kelvin conversion and persistence of one row (`process_weather_data`);
  - the latest-row-per-city query (`get_weather_data_from_db`);
  - one city's isolated fetch-and-persist task (`fetch_and_process_city_weather`);
  - the scheduled tick over every configured city (`scheduled_fetch_weather`);
  - the constants `CITIES` and `REDIS_EXPIRY_TIME` (299 seconds).
- **Daily summary** (`service/weatherSummary.py`, `calculate_daily_summaries`):
  - the cache guard per city and day;
  - the per-condition grouped statistics, of which the first group is used;
  - the dominant condition;
  - the single commit, and the rollback on any exception.
- **Alerts** (`service/alerts.py`):
  - the seven threshold rules over each city's two newest rows (`check_alerts`);
  - the alert row each queued task appends (`create_alert`);
  - the latest-alert lookup (`fetch_latest_alert`);
  - the "no alerts" guard of `send_email_alert`.

The project has five modules:

- `Records` (`records.dfy`):
  - the table rows and the decoded upstream JSON document;
  - the city list;
  - UTC day numbers and their ISO date text;
  - the `Store` class, which holds the three tables as sequences that operations append to.
- `Cache` (`cache.dfy`): the Redis client as a class over a map from key to value and expiry instant, with `get` and `setex`.
- `WeatherFetch` (`weather_fetch.dfy`):
  - the upstream provider as a class with a fixed reply function and a log of the requests sent;
  - the fetch pipeline.
- `Alerts` (`alerts.dfy`): the alert evaluator, alert creation and the latest-alert lookup.
- `WeatherSummary` (`weather_summary.dfy`): the daily aggregation job.

Each method with a loop or a state change is proved against a specification function:
- `CheckAlerts` changes no state; the alert queue its loop builds is `AlertTasks` of the weather table;
- `ScheduledFetchWeather` changes the cache, the tables and the request log, and its new state is `Tick` of the old;
- `CalculateDailySummaries` changes the summary table, and the rows it commits are `NewSummaries`;
- the other methods likewise.

The properties are proved as lemmas about those functions.

Time is a parameter `now`, in whole seconds since the Unix epoch (UTC). The
calendar day is `now / 86400`, written as ISO text by the proleptic
Gregorian days-to-civil conversion where a cache key needs it. That
conversion is proved invertible, so distinct days give distinct guard keys.
Each queued alert task reads the clock itself when it runs, so draining a
queue takes one instant per task.

The code has some behaviours a reader might not expect. The model keeps them as written:

- **A cache hit still persists a row.** One might expect a hit to skip persistence. The code passes the cached document to `process_weather_data` like a fetched one (`TickPersistsOnCacheHit`).
- **The summary statistics come from one condition group.** `avg`, `max` and `min` are those of the first group of the grouped query, not of the whole day (`SummaryStats`, `OneConditionIsWholeDay`).
- **Summaries are inserted, not upserted.** Two runs on one day leave two rows for a city (`RerunDuplicates`).
- **One error aborts the whole summary run.** The loop, the cache reads and the commit share one `try`, so any exception discards every row of the run rather than only that city's (`CalculateDailySummaries`).
- **The latest-per-city query returns every row that ties on a city's maximum timestamp.** It does not return one row per city: the join matches every row of the city at that timestamp, and duplicates stay duplicates (`GetWeatherDataFromDb`).
- **Cache keys are `weather_data_<city>` and `daily_summary_<city>_<YYYY-MM-DD>`.** Alert types are the exact strings the code writes ("Very Strong Winds", "Very High Pressure", "Very Low Pressure", "Very Low Visibility").
- **The visibility alert's message interpolates the minimum pressure threshold, not the visibility threshold.** This is kept as written (`MessageOf`).

The source leaves some SQL orders unspecified. The model fixes them deterministically:
- the limit-2 query breaks a timestamp tie in favour of the earlier-inserted row;
- the latest-alert lookup breaks a tie in favour of the later-inserted row;
- the "first group" of the summary query is the group of the day's first-inserted row;
- among equally frequent conditions, the dominant one is the first in the day's row order;
- the latest-per-city join (`service/weatherFetch.py:98-104`) has no `ORDER BY`, so its row order is unspecified; the model returns the rows in table order.

## Model

| member | source | states |
|---|---|---|
| Records.OfCity | service/alerts.py:18-20 | the rows kept by the city filter are exactly the table's rows of that city, in table order |
| Records.OfCityCounts | service/alerts.py:18-20 | the city filter keeps every copy of each row of the city and no other row |
| Records.CitiesDistinct | service/weatherFetch.py:18 | the configured city list names no city twice |
| Records.DayOf | service/weatherSummary.py:12 | the UTC day of an instant is the day whose 86400-second span contains it |
| Records.IsoDate | service/weatherSummary.py:12-14 | the `str()` text of today's UTC date: year (four digits at least), month and day, dash-separated and zero-padded |
| Records.CivilFromDays | service/weatherSummary.py:12 | the proleptic Gregorian (year, month, day) of a day number, over 400-year eras starting on 1 March |
| Records.DaysFromCivil | service/weatherSummary.py:12 | the day number of a (year, month, day), the inverse conversion |
| Records.IsoDateEpoch | service/weatherSummary.py:14 | the ISO text of day 0 is "1970-01-01", the date text the guard key embeds |
| Records.CivilRoundTrip | service/weatherSummary.py:12 | every day number has a month in 1..12 and a day of month in 1..31, and the inverse conversion gives the day number back |
| Records.YearOfEraBounds | service/weatherSummary.py:12 | within a 400-year era, the year lies in 0..399 and the day of that year in 0..365 |
| Records.DateTextInjective | service/weatherSummary.py:14 | the date text determines the year, month and day it was written from |
| Records.IsoDateInjective | service/weatherSummary.py:14 | two days have the same ISO text exactly when they are the same day |
| Records.IsoDateChars | service/weatherSummary.py:14 | the ISO text holds only digits and dashes, so never the key's `_` separator |
| Cache.Lookup | service/weatherFetch.py:29-31 | `get` answers a value exactly when the key is set and unexpired, and then the stored value |
| Cache.Stored | service/weatherFetch.py:42 | `setex` adds the key with the new value and expiry `now + ttl` and keeps every other key |
| Cache.SetThenGet | service/weatherFetch.py:42 | a value just set reads back until its time to live elapses and is absent afterwards; other keys read as before |
| Cache.Redis.Get | service/weatherFetch.py:29 | the client's `get` returns what `Lookup` specifies for the current entries |
| Cache.Redis.SetEx | service/weatherFetch.py:42 | the client's entries after `setex` are the `Stored` entries |
| WeatherFetch.WeatherKey | service/weatherFetch.py:28 | the weather cache key is `weather_data_<city>` |
| WeatherFetch.WeatherKeyInjective | service/weatherFetch.py:28 | distinct cities have distinct weather cache keys |
| WeatherFetch.WeatherApi.Get | service/weatherFetch.py:34-36 | a request returns the provider's reply for the city and is logged |
| WeatherFetch.Fetch | service/weatherFetch.py:27-43 | a cache hit returns the cached document with no request and an unchanged cache; a miss always requests; a non-200 status fails with that status and leaves the cache alone; a 200 reply returns the body and leaves the cache exactly as `setex` of the body with expiry `now + REDIS_EXPIRY_TIME` makes it: readable for 299 seconds, absent afterwards, every other key unchanged at every instant |
| WeatherFetch.FetchWeatherData | service/weatherFetch.py:27-43 | the method's result, new cache and request log are those `Fetch` specifies |
| WeatherFetch.FetchDependsOnLookup | service/weatherFetch.py:28-32 | one city's fetch result, its request and the rows it writes depend only on that city's own cache key |
| WeatherFetch.KelvinToCelsius | service/weatherFetch.py:61-62 | Celsius is Kelvin minus 273.15 |
| WeatherFetch.KelvinToFahrenheit | service/weatherFetch.py:61-62 | Fahrenheit is Kelvin minus 273.15, times 9/5, plus 32 |
| WeatherFetch.Converted | service/weatherFetch.py:61-62 | the preference flag picks Celsius when set and Fahrenheit otherwise, for both temperatures |
| WeatherFetch.ConversionFacts | service/weatherFetch.py:61-62 | 273.15 K is 0.0 °C and 32.0 °F; 293.15 K is 20.0 °C and 68.0 °F; Fahrenheit is Celsius times 9/5 plus 32; both conversions are strictly increasing |
| WeatherFetch.WellFormed | service/weatherFetch.py:51-58 | every key the code reads is present: name, main.temp, main.feels_like, main.humidity, main.pressure, wind.speed, a first weather entry with main and description, and visibility |
| WeatherFetch.ToRecord | service/weatherFetch.py:51-76 | a row is built exactly when every key read is present, with the document's name as city, the first condition's main and description, both temperatures converted in the preferred unit, humidity, wind speed, pressure and visibility copied unchanged, and timestamp `now` |
| WeatherFetch.ProcessWeatherData | service/weatherFetch.py:48-83 | a complete document appends exactly its row; a missing key appends nothing and returns None; the other tables are untouched |
| WeatherFetch.MaxTimestamp | service/weatherFetch.py:88-96 | the per-city maximum timestamp is attained by some row and bounds every row |
| WeatherFetch.GetWeatherDataFromDb | service/weatherFetch.py:87-104 | a row is returned exactly when its city is listed and no row of its city is newer, and as many times as the table holds it |
| WeatherFetch.LatestCounts | service/weatherFetch.py:87-104 | the join keeps every copy of each newest row of a listed city and no other row |
| WeatherFetch.LatestOfThreeIsNewest | service/weatherFetch.py:87-104 | with Delhi rows at t1 < t2 < t3, only the t3 row is returned |
| WeatherFetch.CityRows | service/weatherFetch.py:109-117 | one city's task writes at most one row: none when the fetch fails or the document lacks a key, else the document's Celsius row |
| WeatherFetch.CityStep | service/weatherFetch.py:109-117 | one city's task appends at most one row and at most one request to the logs it keeps; the request is for the city processed, the row for the city the document names |
| WeatherFetch.Tick | service/weatherFetch.py:120-122 | a tick only appends: at most one row and one request per city, and only listed cities are requested |
| WeatherFetch.FetchAndProcessCityWeather | service/weatherFetch.py:109-117 | one city's task fetches and, when the fetch succeeds, processes the document; every error is absorbed; the new state is `CityStep` of the old |
| WeatherFetch.ScheduledFetchWeather | service/weatherFetch.py:120-122 | a tick runs every configured city's task, in list order; the new state is `Tick` of the old; summaries and alerts are untouched |
| WeatherFetch.TickRows | service/weatherFetch.py:120-122 | each listed city's rows, computed against the cache as it was when the tick started, in list order |
| WeatherFetch.Missed | service/weatherFetch.py:29-32 | the listed cities whose weather key misses the starting cache, in list order |
| WeatherFetch.TickKeepsOtherKeys | service/weatherFetch.py:120-122 | a tick leaves the cache key of every city it does not process as it was |
| WeatherFetch.TickWeather | service/weatherFetch.py:109-122 | with distinct cities, the rows a tick appends are each city's own rows computed against the starting cache |
| WeatherFetch.TickRequests | service/weatherFetch.py:109-122 | with distinct cities, the tick asks upstream for exactly the cities that miss the starting cache, in list order |
| WeatherFetch.TickIsolation | service/weatherFetch.py:109-122 | failure isolation: both the appended rows and the requests are each city's own outcome, whatever happened to the other cities |
| WeatherFetch.TickStoresEachFetchedCity | service/weatherFetch.py:109-122 | every listed city whose document is obtained complete gets its Celsius row stored by the tick, even when other cities fail |
| WeatherFetch.TickPersistsOnCacheHit | service/weatherFetch.py:29-32 | a city with a cached complete document gets a row stored again and is not requested upstream |
| WeatherFetch.MissedOnlyMisses | service/weatherFetch.py:29-32 | a city with a cache hit never appears among the requested cities |
| Alerts.DefaultThresholds | service/alerts.py:15 | the default arguments: 35.0, 80, 1000, 1030, 15 and 1000 |
| Alerts.RecentTwo | service/alerts.py:18-25 | the `order_by(timestamp.desc()).limit(2)` query: as many rows as the city has, at most two |
| Alerts.Fires | service/alerts.py:28-40 | the seven strict comparisons: both newest temperatures above the threshold, or the newest row below freezing, above the humidity, wind or maximum pressure threshold, or below the minimum pressure or visibility threshold |
| Alerts.TypeName | service/alerts.py:29-41 | the exact alert_type strings the seven rules write |
| Alerts.TypeNameInjective | service/alerts.py:29-41 | no two rules write the same alert_type text |
| Alerts.MessageOf | service/alerts.py:29-41 | each rule's message and the threshold it shows; the visibility message shows `pressure_threshold_min` |
| Alerts.RuleTask | service/alerts.py:28-41 | one rule's `if`: at most one task, enqueued when the rule fires, with that rule's message |
| Alerts.FiredTasks | service/alerts.py:28-41 | the seven rules' tasks for one city, at most seven, in the order the rules are tried |
| Alerts.Raised | service/alerts.py:17-41 | whether the queue holds a task of a given rule for a given city |
| Alerts.NewestIndex | service/alerts.py:21 | the chosen row has a timestamp no row exceeds |
| Alerts.RecentTwoRows | service/alerts.py:18-25 | the limit-2 query returns distinct table rows of the city (a sub-multiset), and all of them when there are at most two |
| Alerts.RecentTwoSubMultiset | service/alerts.py:18-25 | the two rows returned are two different rows of the table, never one row twice |
| Alerts.RecentTwoFirstNewest | service/alerts.py:21-22 | the first row returned is at least as new as every row |
| Alerts.RecentTwoSecondNewest | service/alerts.py:21-22 | the second row is no newer than the first, and at least as new as every row but the newest |
| Alerts.RecentTwoIgnoresOlder | service/alerts.py:18-25 | appending a row strictly older than the second-newest leaves the query's answer unchanged |
| Alerts.RuleTaskIff | service/alerts.py:28-41 | one rule enqueues a task exactly when it fires, with that rule's message |
| Alerts.FiredTasksIff | service/alerts.py:28-41 | a city's queue holds a task exactly for each rule that fires, with the city and that rule's message |
| Alerts.FiredTasksAscend | service/alerts.py:28-41 | the rules' tasks come out in the order the rules are tried |
| Alerts.CityTasks | service/alerts.py:27 | a city enqueues at most seven tasks, all for itself |
| Alerts.AlertTasks | service/alerts.py:17-41 | a check enqueues at most seven tasks per city, and only for listed cities |
| Alerts.EnqueueCityAlerts | service/alerts.py:28-41 | trying the seven rules in turn yields exactly `FiredTasks` |
| Alerts.CheckAlerts | service/alerts.py:15-41 | the queue a check builds over CITIES is `AlertTasks` of the weather table |
| Alerts.TasksOfCity | service/alerts.py:17-41 | with distinct cities, each listed city's tasks in the queue come from its own two newest rows only |
| Alerts.AlertTasksIgnoreOlder | service/alerts.py:18-27 | a row older than its city's second-newest changes no task |
| Alerts.RaisedIff | service/alerts.py:27-41 | a rule is raised for a listed city exactly when the city has two rows and the rule fires on its two newest |
| Alerts.NoTasksWithoutHistory | service/alerts.py:27 | a city with fewer than two rows gets no task |
| Alerts.HighTemperatureNeedsBoth | service/alerts.py:28-29 | "High Temperature" is raised exactly when both newest rows are strictly above the threshold |
| Alerts.HighTemperatureExample | service/alerts.py:15-29 | with the default 35.0, two rows at 36.0 raise "High Temperature"; a row at or below 35.0 prevents it |
| Alerts.NewestOnlyRules | service/alerts.py:30-41 | every rule but "High Temperature" is raised exactly when it fires on the newest row, whatever the second row |
| Alerts.FiresIgnoresPrevious | service/alerts.py:30-41 | the six single-row rules ignore the previous row |
| Alerts.VeryColdIgnoresThresholds | service/alerts.py:30-31 | no threshold argument changes whether "Very Cold" is raised |
| Alerts.AtThresholdNoAlert | service/alerts.py:28-41 | a reading exactly at its threshold fires no rule, since every comparison is strict |
| Alerts.PressureAlertsExclusive | service/alerts.py:36-39 | with min <= max, no check raises both pressure alerts for one city |
| Alerts.TasksInOrder | service/alerts.py:17-41 | the queue is ordered by city position in the list, and within a city by rule |
| Alerts.OneTaskPerRule | service/alerts.py:28-41 | no city gets the same rule twice in one check |
| Alerts.CreateAlert | service/alerts.py:44-52 | one alert row with the given city, type, message and time is appended; the other tables are untouched |
| Alerts.AlertsOf | service/alerts.py:44-52 | a drained queue appends one row per task, in queue order, with the rule's type text and the instant that task ran |
| Alerts.RunAlertTasks | service/alerts.py:44-52 | running the queued tasks, each at its own instant, appends exactly `AlertsOf` the queue and those instants, with no de-duplication |
| Alerts.FetchLatestAlert | service/alerts.py:55-69 | "no alerts" exactly when the city has no alert; otherwise an alert of that city that no other alert of that city is newer than |
| Alerts.SendEmailAlert | service/alerts.py:75-80 | the mail step errors exactly when the city has no alert, and otherwise takes the city's latest alert |
| WeatherSummary.GuardKey | service/weatherSummary.py:14 | the guard key is `daily_summary_<city>_<YYYY-MM-DD>` |
| WeatherSummary.Guarded | service/weatherSummary.py:14-18 | a city is skipped when its guard key for today's date is present and unexpired |
| WeatherSummary.GuardKeyInjective | service/weatherSummary.py:14 | two guard keys are equal exactly when their cities and their days are: a guard set for one city and day marks no other |
| WeatherSummary.GuardedIgnoresOtherKeys | service/weatherSummary.py:14-18 | writing the guard key of another city, or of another day, does not change whether a city is skipped today |
| WeatherSummary.GuardKeyNeverFetched | service/weatherSummary.py:14 | a summary guard key never coincides with a weather cache key |
| WeatherSummary.TodayRows | service/weatherSummary.py:26-28 | the filtered rows are exactly those of the city whose UTC day is the given day |
| WeatherSummary.TodayRowsCounts | service/weatherSummary.py:26-28 | the day filter keeps every copy of each row of the city and day and no other row |
| WeatherSummary.Group | service/weatherSummary.py:29 | a group holds exactly the rows of its condition |
| WeatherSummary.GroupCounts | service/weatherSummary.py:29 | a group keeps every copy of each row of its condition and no other row |
| WeatherSummary.Avg | service/weatherSummary.py:22 | `func.avg` of a non-empty group: the sum of its temperatures divided by their number |
| WeatherSummary.MaxOf | service/weatherSummary.py:23 | the maximum is one of the temperatures and no temperature exceeds it |
| WeatherSummary.MinOf | service/weatherSummary.py:24 | the minimum is one of the temperatures and exceeds none |
| WeatherSummary.AvgBetween | service/weatherSummary.py:22-24 | a group's average lies between its minimum and maximum |
| WeatherSummary.MostFrequent | service/weatherSummary.py:49 | the chosen candidate is a candidate no other candidate outnumbers |
| WeatherSummary.Dominant | service/weatherSummary.py:48-51 | there is no dominant condition exactly when there are no conditions |
| WeatherSummary.DominantIsMostFrequent | service/weatherSummary.py:49 | the dominant condition occurs in the list and at least as often as any other value |
| WeatherSummary.DominantExample | service/weatherSummary.py:49 | [Haze, Haze, Clear] has dominant condition "Haze" |
| WeatherSummary.SummaryFor | service/weatherSummary.py:20-61 | a city gets no summary exactly when it has no rows that day; otherwise one for that city and day |
| WeatherSummary.SummaryStats | service/weatherSummary.py:20-37 | min <= avg <= max; max and min are temperatures of rows of the first condition group and bound every row of it |
| WeatherSummary.GroupTempsBounds | service/weatherSummary.py:23-24 | a group's extremes are attained by its rows and bound all of them |
| WeatherSummary.SummaryDominant | service/weatherSummary.py:40-51 | the summary's dominant condition is present, is a condition of the day, and is at least as frequent as every other |
| WeatherSummary.OneConditionIsWholeDay | service/weatherSummary.py:29-37 | when the whole day shares one condition, the statistics are those of the whole day |
| WeatherSummary.GroupOfOne | service/weatherSummary.py:29 | grouping rows that all share the condition returns them unchanged |
| WeatherSummary.SummaryIgnoresOtherRows | service/weatherSummary.py:26-28 | a row of another city or another day leaves the summary unchanged |
| WeatherSummary.CitySummary | service/weatherSummary.py:14-34 | a city contributes at most one row, for itself and today |
| WeatherSummary.NewSummaries | service/weatherSummary.py:13-61 | a run adds at most one row per listed city, each for a listed city and today |
| WeatherSummary.NewSummariesOfCity | service/weatherSummary.py:13-61 | with distinct cities, a run's rows for a city are that city's own contribution, or none when it is not listed |
| WeatherSummary.NewSummariesCount | service/weatherSummary.py:13-61 | a city gets exactly one new row when it is listed, unguarded and observed today, and none otherwise |
| WeatherSummary.RerunDuplicates | service/weatherSummary.py:53-63 | two unguarded runs on one day add two rows for an observed city, with no upsert |
| WeatherSummary.SummarizeCity | service/weatherSummary.py:14-61 | one city's turn reads the guard key and yields exactly `CitySummary` |
| WeatherSummary.CollectSummaries | service/weatherSummary.py:13-61 | the loop raises exactly when the failing step falls inside the city list; otherwise it collects exactly `NewSummaries` |
| WeatherSummary.CalculateDailySummaries | service/weatherSummary.py:10-66 | a run without exception commits exactly `NewSummaries` over CITIES; an exception anywhere, including at the commit, leaves the summaries as they were; weather and alerts are untouched |

## Left out

- **Network, e-mail and JSON:**
  - HTTP transport errors and the e-mail itself (SMTP, MIME, credentials) are left out. The provider is a reply function, and `send_email_alert` is modelled up to its "no alerts" decision.
  - The JSON dump and load around the cache is the identity.
  - A 200 reply whose body is not JSON is left out. In the code, `response.json()` (`service/weatherFetch.py:39`) raises, nothing is cached, and the city task absorbs the error (lines 114-115). In the model every 200 reply carries a decoded document.
  - JSON `null` and wrongly typed values are left out. A `Payload` field is either a value of its type or absent. In the code, a key that is present but `null` passes the reads at lines 51-58. A null `humidity`, `pressure` or `visibility` is then stored as NULL with no error, and a null `temp` raises at line 61 and rolls back. `ToRecord` and `ProcessWeatherData` send every such case down the missing-key path: no row and a rollback.
  - The Redis "falsy value" case, an empty cached string read as a miss, is left out: every value the model's cache holds is a decoded document, never empty. The code never writes the summary guard keys, and reads them only for truth, so a guard counts as set whenever the key is present and unexpired.
- **Concurrency and scheduling:**
  - `asyncio.gather` concurrency and overlapping ticks are left out. The module-level `asyncio.Lock` at `service/weatherFetch.py:45` is created but never acquired, so it serialises nothing and has no counterpart in the model. A tick runs the cities one after another in list order, and each city's fetch reads only its own cache key.
  - `BackgroundTasks` execution is left out. `check_alerts` returns the queue of `create_alert` calls, and `RunAlertTasks` drains it later.
  - The APScheduler interval job is left out.
- **Numbers and text:**
  - IEEE floating point is left out. Temperatures and speeds are exact reals, so `KelvinToCelsius(273.15)` is exactly 0.0.
  - Alert message formatting is left out. `AlertMessage` keeps the interpolated threshold values rather than the text.
  - Python's `datetime` is left out. The clock is the `now` parameter, and the UTC date is a day number.
  - Python dates exist only for years 1 to 9999. `IsoDate` is defined for every day number; outside that range it writes years the source can never produce (more than four digits, or a leading dash).
- **Database behaviour:**
  - Commit failures of `process_weather_data` and `create_alert` are left out. Only a document with a missing key takes the rollback path.
  - The `except` branch of `fetch_latest_alert` (a database error) is left out.
  - Rows written while a query runs are left out: no concurrent writer is modelled.
- **Logging:** the `print` calls on the error paths (`service/weatherFetch.py:82` and `:115`, `service/weatherSummary.py:65`) are left out. They change no state.
- **Other parts of the service:** the route layer, the forecast and historical-data lookups, the models and database and configuration modules, and `schedule_daily_summaries` are not part of this model.
- CalculateDailySummaries: does not model which exception occurs. An exception is the `failAt` parameter: `Some(i)` raises during the i-th city, or at the commit when `i` is past the last city.
- Dominant: breaks ties by first occurrence. The source leaves the choice to set iteration order, so only the "most frequent" property is the source's promise.

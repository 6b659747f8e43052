# Verified model of the Istanbul city-data server's correctness core

The server answers questions about public transport, water, facilities and other city data. It
loads each source as a complete snapshot, keeps it in a bounded cache or in SQLite, and limits
how fast clients may ask and how fast it may ask its sources. This project models the parts on
which the correctness of the answers rests, and proves what they promise.

* **Timetable.** `TimeCodec`, `Mojibake` and `CoordinateCodec` read the cells of the feed.
  `ScheduleIngest` stages the tables, with the trigger that rejects conflicting stop times and
  with the row budget. `TripTimes` is the check that trips do not run backwards.
  `SnapshotProtocol` publishes a snapshot in one transaction to a database that several workers
  share, and `SnapshotQuery` is a worker's checked query on it. `Timetable` and `ScheduleQuery`
  answer "departures in the next 24 hours"; `Orders` holds the theory of stable sorts and of
  "the first k" that the query needs.
* **Limits.** `ClientLimiter` (a token bucket per client, in a bounded table), `TokenBucket` (a
  bucket per source, with penalties), `Admission` (concurrent requests) and `DailyQuota`, over
  exact real time (`Rates`).
* **Snapshots of sources.** `SourceCache` (fresh, stale and capped answers, eviction, one loader per
  key), `IskiFallback` (live sources, stale relay, dated snapshot) and `Paging` (complete capture
  from an arbitrary page server).
* **Stored and merged data.** `GeoRepository` (the feature table and the index that shadows it),
  `FacilityMerge` (two lists of facilities, and the accounting) and `Telemetry` (call counters).

Code that updates state in place is a class or a method with loops, proved against a function of
the old state; claims over whole runs are lemmas about every sequence of such steps. In
concurrent parts a step is what happens between two suspension points, or one transaction.

Places where the code does less than one might expect, each with its exact condition:

* **A penalty's delay.** A task refused by `AsyncTokenBucket` during a penalty is told only how long
  the penalty lasts (app/core/rate_limit.py:70-71). When the bucket will still be short of a token
  then, waiting that long does not earn a grant. `TokenBucket.WaitingIsRewardedExactly` gives the
  condition, `ShortPenaltyDelayIsNotEnough` a failing case, `ShortPenaltyIsReachable` a run to it.
* **Text repair.** `repair_mojibake` undoes the defect for text with a character in U+00C0..U+017F
  and for plain ASCII, and for nothing else (`Mojibake.RepairRestores`; `EuroIsNotRestored`). Text it
  changed re-mangles to its input only when the input's C1 controls stand for bytes undefined in
  Windows-1254 (`ChangedTextRemangles`; `EuroControlIsNotRecovered`).
* **The eve of a calendar.** A query made before the first service day is refused even when its 24
  hours reach into that day. `ScheduleQuery.RefusalHidesExactly` says when a refusal hides an answer,
  `RefusalHidesOnlyTheEve` bounds the moments at which it can, and `EveCanLoseADeparture` shows that
  no such moment can be excluded.
* **Replacing a layer.** The rowids of a layer are read before the transaction that uses them
  (app/storage/geo.py:31-43). If another process commits in between, the index can lose a feature of
  another layer (`GeoRepository.DisturbedReplacementLosesAFeature`) or keep one too many.
  `DisturbedReplacementExactly` says when the index survives such a commit, and
  `UndisturbedRunsKeepIndex` that it always does when there is none.
* **The daily quota.** A call fixes its day before it waits for the database (app/storage/quota.py:38-42),
  and any call of a later day purges the earlier ones, so around midnight the limit can be exceeded
  without any clock going back. `DailyQuota.LimitExceededExactly` says when.
* **Overlapping loads.** Loads of one client share its report fields. A load answered by a live source
  can report the age of a snapshot that an overlapping load answered with; `IskiFallback.ReportedAges`
  says when. A snapshot's own answer always reports its own age.

## Model

| member | source | states |
|---|---|---|
| ScheduleQuery.Query | app/services/gtfs_schedule.py:353-428 | The answer is the first `limit`, by (time, stop, trip, service day, stop sequence), of all boardable departures in the next 24 hours over every service date there is; it fails exactly for an unknown stop, a timetable without validity, or a time outside the calendar, in this order. |
| ScheduleQuery.FourDaysSuffice | app/services/gtfs_schedule.py:377-428 | Four days, each cut at the limit, sorted on three of the five keys and cut again, give the answer over all days. |
| ScheduleQuery.OnlyFourServiceDays | app/services/gtfs_schedule.py:379-383 | With times of at most 71:59:59, no service day but the four that are read has a departure in the window. |
| ScheduleQuery.SelectDayIsFirstK | app/services/gtfs_schedule.py:394-410 | One day's ordered and limited SELECT is the first `limit` of that day's part of the answer. |
| ScheduleQuery.MergeSorts | app/services/gtfs_schedule.py:427 | The final sort looks at time, stop and trip only, yet, being stable, leaves the rows in the full five-part order. |
| ScheduleQuery.ActiveServices | app/services/gtfs_schedule.py:384-391 | A service is collected for a date if and only if an exception adds it, or there is no exception and some calendar row of it covers the date with a 1 for its weekday; day 1 is a Monday. |
| ScheduleQuery.NearestFive | app/services/gtfs_schedule.py:359-366 | A coordinate query uses exactly the five nearest stops in the radius, ties broken by identifier. |
| ScheduleQuery.NearestPlainly | app/services/gtfs_schedule.py:359-366 | The same in terms of the stops alone: at most five, within the radius, by rounded distance and identifier, and none left out before a full five. |
| ScheduleQuery.AnswerDetermined | app/services/gtfs_schedule.py:427-428 | "The first `limit`" describes one list only, so the contract of the query fixes its result, order included. |
| ScheduleQuery.AnswerPlainly | app/services/gtfs_schedule.py:384-410 | Which departures are in the answer, in terms of the rows alone: published, timed and boarding, at a wanted stop, on the wanted line, of a service that runs on the date by its weekday (day 1 is a Monday) or its exception, and leaving in the 24 hours from the time asked. |
| ScheduleQuery.OrderPlainly | app/services/gtfs_schedule.py:408-427 | The order of the answer, key by key: time, stop, trip, service day, stop sequence. |
| ScheduleQuery.AnsweredRowsRun | app/services/gtfs_schedule.py:384-428 | On a date without exceptions for its service, every row answered has a calendar row that covers the date with a 1 for its weekday; a qualifying departure is missing only behind a full answer. |
| ScheduleQuery.CalendarPlainly | app/services/gtfs_schedule.py:367-376 | A time is within the calendar if and only if it is no earlier than some beginning of service, and before some closing day's end, counted as long as the latest departure. |
| ScheduleQuery.RefusalPlainly | app/services/gtfs_schedule.py:355-376 | Which error the query gives, in terms of the stops and the calendar: each exactly when its cause is there and no earlier one is. |
| ScheduleQuery.SelectedById | app/services/gtfs_schedule.py:355-358 | A query by identifier uses exactly the stop that has it. |
| ScheduleQuery.RefusedPastTheEndHidesNothing | app/services/gtfs_schedule.py:367-376 | A time refused for lying past the end of the calendar has no boardable departure at or after it. |
| ScheduleQuery.RefusalHidesOnlyTheEve | app/services/gtfs_schedule.py:373-376 | If a refused query had an answer, it was made less than a day before the first service day and the answer lies in that day or later. |
| ScheduleQuery.RefusalHidesExactly | app/services/gtfs_schedule.py:373-376 | For all tables, stops, lines and times: a refused query had an answer if and only if it was made before the first service day and a boardable departure of that day leaves within its 24 hours. |
| ScheduleQuery.EveCanLoseADeparture | app/services/gtfs_schedule.py:375-376 | For every first service day and every moment of the 24 hours before it, there is a published timetable whose departure the refusal hides. |
| ScheduleQuery.NextDepartures | app/services/gtfs_schedule.py:236-244 | Asking for one row more than shown makes `truncated` true exactly when some departure in the window is not shown; the query's failures are passed on unchanged. |
| Timetable.ActiveDatesWithinBounds | app/services/gtfs_schedule.py:367-370 | Every active date of every service lies within the bounds computed from calendar rows and added dates. |
| Timetable.CalendarBoundsExact | app/services/gtfs_schedule.py:367-370 | The bounds are the earliest beginning and the latest end of any calendar row or added date. |
| Timetable.MaxDepartureExact | app/connectors/gtfs_schedule.py:414 | The largest departure time is that of some row, and no row has a later one. |
| Orders.SortRefines | app/services/gtfs_schedule.py:427 | A stable sort under a coarse order gives a finer order whenever the input already lists ties of the coarse order in the finer one. |
| Orders.FirstKOfCover | app/services/gtfs_schedule.py:427-428 | Prefixes of the parts are enough: sorted and cut, they are the prefix of the whole. |
| Orders.FirstKUnique | app/services/gtfs_schedule.py:428 | A set has only one list of its first k members. |
| Orders.FirstKPlusOne | app/services/gtfs_schedule.py:236-237 | The first k + 1 tell whether the first k are everything. |
| Orders.StrLtExact | app/services/gtfs_schedule.py:427 | Texts are compared at their first difference, and a proper prefix comes first. |
| TimeCodec.ParsePrinted | app/connectors/gtfs_schedule.py:187-196 | Parsing undoes the HH:MM:SS printer on every time from 0 to 259199. |
| TimeCodec.ParsedExactly | app/connectors/gtfs_schedule.py:187-196 | The only texts that denote a time are its printed form and, below ten hours, that form without its leading zero; no other text, and no time beyond 72 hours, is accepted. |
| TimeCodec.PrintedPlainly | app/services/gtfs_schedule.py:422 | The printed form, character by character: two digits each for hours, minutes and seconds between colons. |
| CoordinateCodec.GroupingRecovered | app/connectors/gtfs.py:57-80 | A decimal of two integer and 5 to 13 fraction digits is recovered from its right-to-left grouping in threes: it is read exactly as the decimal itself is, bounds included. |
| CoordinateCodec.GroupedReadsDegreesFirst | app/connectors/gtfs.py:69-73 | Any accepted text of the grouped shape is read with its first two digits as degrees, and within the axis bounds. |
| CoordinateCodec.GroupedIsGroup | app/connectors/gtfs.py:70-72 | Every text of the grouped shape is the grouping of its own digits. |
| CoordinateCodec.GroupShape | app/connectors/gtfs.py:70-72 | Grouping digits in threes gives the recognised shape, and removing the points gives the digits back. |
| CoordinateCodec.GroupedExactly | app/connectors/gtfs.py:70-72 | A text has the recognised shape if and only if it is the grouping of 7 to 15 digits. |
| CoordinateCodec.UnsignedExactly | app/connectors/gtfs.py:73-78 | The texts read as unsigned numbers are exactly digits with at most one point and at least one digit, with that value. |
| CoordinateCodec.SignsExactly | app/connectors/gtfs.py:73-78 | One sign may come before, and a minus negates. |
| CoordinateCodec.MovingThePoint | app/connectors/gtfs.py:76 | The value of a decimal: without fraction digits a whole number, and ten times as large with the point one place further right. |
| CoordinateCodec.CoordinateExactly | app/connectors/gtfs.py:66-80 | Outside the grouped shape a text is read as a decimal, a number as itself, anything else not at all, and only within the bounds. |
| CoordinateCodec.StripExact | app/connectors/gtfs.py:69 | Stripping takes away white space at both ends only, and leaves none there. |
| CoordinateCodec.StripPadded | app/connectors/gtfs.py:69 | Whatever white space surrounds a text, stripping gives the text back. |
| Mojibake.RepairRestores | app/connectors/gtfs_schedule.py:154-167 | Repair restores text that was encoded in UTF-8 and read as Windows-1254 if and only if it has a character in U+00C0..U+017F or is plain ASCII. |
| Mojibake.ChangedTextRemangles | app/connectors/gtfs_schedule.py:163-165 | Text changed by repair is proper Unicode, and mangles back to the input if and only if the input's C1 controls are only the bytes undefined in Windows-1254. |
| Mojibake.EuroIsNotRestored | app/connectors/gtfs_schedule.py:161-162 | A text that repair does not restore. |
| Mojibake.EuroControlIsNotRecovered | app/connectors/gtfs_schedule.py:164 | A text that repair changes into one which mangles to something else. |
| Mojibake.DecodeEncoded | app/connectors/gtfs_schedule.py:165 | Decoding undoes encoding (UTF-8, sections 3 and 4 of RFC 3629). |
| Mojibake.EncodeDecoded | app/connectors/gtfs_schedule.py:165 | What decodes is the encoding of its result: no overlong forms, no surrogates. |
| Mojibake.RawOfRead | app/connectors/gtfs_schedule.py:164 | Every byte is recovered from the character it was read as, undefined bytes through their C1 controls. |
| Mojibake.Windows1254Early | app/connectors/gtfs_schedule.py:157-164 | Windows-1254 where it differs from Latin-1: the six Turkish letters and the first sixteen upper controls. |
| Mojibake.Windows1254Late | app/connectors/gtfs_schedule.py:157-164 | The other sixteen upper controls. |
| ScheduleIngest.AcceptedRowsObeyRules | app/connectors/gtfs_schedule.py:399-410 | No stop-time row is staged outside the ranges, the arrival before departure rule and the exact-timepoint rule. |
| ScheduleIngest.StopTimeValuesExactly | app/connectors/gtfs_schedule.py:399-410 | A line's cells become a row if and only if the stripped trip and stop are the row's, the sequence cell is up to eight digits denoting its sequence, each time cell is empty or the printed form of its time, each enumeration cell its digit or empty for the default, and the row meets the two rules on its times. |
| ScheduleIngest.StagedRowHasItsLine | app/connectors/gtfs_schedule.py:319-332 | Every row in staging comes from a line of the right width whose cells denote it. |
| ScheduleIngest.PrintedLineAccepted | app/connectors/gtfs_schedule.py:399-410 | Every row that obeys the rules, with texts that have nothing to strip, is what the line printed from it is staged as. |
| ScheduleIngest.CompatibleIsEquivalence | app/connectors/gtfs_schedule.py:52-68 | The trigger's test is reflexive, symmetric and transitive; on timed rows of one key it is equality. |
| ScheduleIngest.TriggerDecidesConsistency | app/connectors/gtfs_schedule.py:52-68 | The file is accepted row by row exactly when every two rows of one key are compatible, and staging then holds one row of every key. |
| ScheduleIngest.AcceptedPlainly | app/connectors/gtfs_schedule.py:52-68 | A file is accepted if and only if any two rows of one trip and sequence agree in times, timepoint and pickup, and in the stop unless both are untimed and approximate. |
| ScheduleIngest.KeysDecide | app/connectors/gtfs_schedule.py:366-367 | Another table is accepted if and only if no primary key is there already or comes twice. |
| ScheduleIngest.FirstRowKept | app/connectors/gtfs_schedule.py:358-365 | Of several rows of one key the first is kept. |
| ScheduleIngest.OrderDoesNotMatter | app/connectors/gtfs_schedule.py:351-367 | Two orders of the same rows are accepted alike, store the same keys, the same timed rows and compatible untimed ones. |
| ScheduleIngest.FileOrderDoesNotMatter | app/connectors/gtfs_schedule.py:300-367 | Every permutation of a file's lines gets the same verdict and, if accepted, the same counts, keys and timed rows; an untimed key may keep another of its untimed duplicates. |
| ScheduleIngest.InsertAllConcat | app/connectors/gtfs_schedule.py:333-344 | Inserting in batches is inserting all at once. |
| ScheduleIngest.StagingDatabase.Insert | app/connectors/gtfs_schedule.py:351-367 | One batch fails as a whole, or leaves the rows inserted and reports how many were new. |
| ScheduleIngest.Ingest | app/connectors/gtfs_schedule.py:300-349 | For every batch size, a table is taken exactly when its lines are well formed, within the budget and free of conflicts; counted and skipped rows add up to the rows scanned. |
| ScheduleIngest.LoadTables | app/connectors/gtfs_schedule.py:228-248 | Succeeds exactly when every table can be taken after those before it, within its cap and what is left of one budget; then all rows scanned, kept or skipped, stay within that budget and staging holds all tables. |
| ScheduleIngest.AcceptedFileIsQueryable | app/connectors/gtfs_schedule.py:319-332 | For every file of cells that `Ingest` takes, the published columns are the staged ones, with unique keys and the time range the query relies on. |
| ScheduleIngest.StagedRowsObeyRules | app/connectors/gtfs_schedule.py:399-410 | Every row that a file puts into staging obeys the ranges, the order of arrival and departure and the exact-timepoint rule. |
| TripTimes.RunningMaximumIsAllPairs | app/connectors/gtfs_schedule.py:438-451 | The running maximum finds nothing exactly when leaving an earlier stop never comes after reaching a later one. |
| TripTimes.CheckIsAllPairs | app/connectors/gtfs_schedule.py:438-451 | On a staged table, over all trips and whatever the row order, the check accepts exactly when no pair of timed rows runs backwards. |
| TripTimes.AcceptedTimesNeverDecrease | app/connectors/gtfs_schedule.py:438-451 | In an accepted table the known times of a trip never decrease, across untimed gaps too. |
| SnapshotProtocol.AllStatementsPublish | app/storage/gtfs_schedule.py:52-68 | The transaction's statements, run one after another on any database, leave exactly the tables and metadata of one publication. |
| SnapshotProtocol.ScheduleDatabase.Publish | app/storage/gtfs_schedule.py:46-73 | Wherever it fails, the committed database is as before; otherwise it is the publication. |
| SnapshotProtocol.ScheduleDatabase.RequireSnapshot | app/storage/gtfs_schedule.py:76-79 | Passes exactly when the stored metadata names this snapshot and profile. |
| SnapshotProtocol.CommittedIsAllOfOne | app/storage/gtfs_schedule.py:46-73 | In every interleaving of publishing, failing and reading workers the committed database is the initial one or all of one publication. |
| SnapshotProtocol.HeldRows | app/storage/gtfs_schedule.py:56-67 | A database that is all of one publication has, row by row, its staged rows without the validation columns, the upgraded columns, and its identifier and profile. |
| SnapshotProtocol.ContentPlainly | app/storage/gtfs_schedule.py:14-43 | What the query reads as tables are the database's rows, column by column and by primary key. |
| SnapshotProtocol.CheckedReadSeesItsPublication | app/services/gtfs_schedule.py:270-283 | A reader whose check passed sees the tables of exactly the publication it asked for, throughout its transaction. |
| SnapshotProtocol.ContentSurvives | app/storage/gtfs_schedule.py:59-65 | Leaving out the validation columns changes nothing that the departure query looks at. |
| SnapshotProtocol.CheckedReadMatchesItsMetadata | app/connectors/gtfs_schedule.py:251-268 | The largest departure time handed out with an identifier is that of the tables which a reader finds after checking for it, and these tables are fit for the query. |
| SnapshotQuery.Departures | app/services/gtfs_schedule.py:270-283 | One read transaction: refused when the snapshot was replaced, otherwise the answer or the failure that the query gives on the tables it sees. |
| SnapshotQuery.RefusedReadHidesNothing | app/services/gtfs_schedule.py:270-283 | In every interleaving of workers, a checked query refused with the metadata of its publication hides no departure of the tables it reads, unless it was made before the first service day. |
| ClientLimiter.ClientRateLimiter.constructor | app/core/abuse_guard.py:20-25 | Starts without clients, with the lower bounds on capacity, rate and table size applied. |
| ClientLimiter.ClientRateLimiter.Acquire | app/core/abuse_guard.py:27-44 | One call refills, charges and answers as specified, and makes room first for a new client. |
| ClientLimiter.ClientRateLimiter.Prune | app/core/abuse_guard.py:54-63 | Nothing happens below the bound; otherwise stale buckets go, then the oldest until there is room. |
| ClientLimiter.StepPlainly | app/core/abuse_guard.py:30-44 | One call in numbers: a new client starts with `capacity` tokens, a known one with what has flowed in since; a whole token is a grant, otherwise the delay is the time until there is one. |
| ClientLimiter.PrunedPlainly | app/core/abuse_guard.py:54-63 | Who is removed: nobody below the bound; else all unseen for a minute and for a full refill, and of the others the longest unseen while there is no room. |
| ClientLimiter.BurstExactly | app/core/abuse_guard.py:27-44 | A new client calling any number of times at one moment, with nobody between, is granted exactly its first `capacity` calls, and each further one is told to wait 1 / refill. |
| ClientLimiter.TableStaysBounded | app/core/abuse_guard.py:54-63 | At every moment of every run the table holds at most `max_clients` clients and every bucket between zero and `capacity` tokens. |
| ClientLimiter.StaleIsFull | app/core/abuse_guard.py:57-58 | A bucket counted as stale has had time to fill up. |
| ClientLimiter.AvailableAfterStep | app/core/abuse_guard.py:27-44 | Any call changes the tokens available to a client only by its own grant, or to a full bucket when it was forced out. |
| ClientLimiter.GrantsBounded | app/core/abuse_guard.py:36-44 | In any stretch of time T of any run a client is granted at most `capacity` + refill * T calls, plus `capacity` for every time it was forced out. |
| ClientLimiter.WaitingIsRewarded | app/core/abuse_guard.py:41-44 | A refused client that waits the returned delay without calling is granted then, whatever the others do. |
| ClientLimiter.PruningIsInvisible | app/core/abuse_guard.py:54-63 | As long as nobody is forced out, all decisions and delays are those of a limiter that keeps every bucket forever. |
| TokenBucket.AsyncTokenBucket.Create | app/core/rate_limit.py:24-41 | A capacity below one or a rate that is not positive is refused; otherwise the bucket starts full. |
| TokenBucket.AsyncTokenBucket.RetryAfterLocked | app/core/rate_limit.py:64-74 | Refills up to the capacity and returns the pending penalty, nothing, or the time until a token is there. |
| TokenBucket.AsyncTokenBucket.Try | app/core/rate_limit.py:43-56 | One try is granted, told to sleep or refused, as specified, and a grant takes one token. |
| TokenBucket.AsyncTokenBucket.Penalize | app/core/rate_limit.py:58-62 | A penalty never shortens an earlier one. |
| TokenBucket.GrantExactly | app/core/rate_limit.py:43-48 | Granted exactly when no penalty is pending and a whole token is there. |
| TokenBucket.TriedPlainly | app/core/rate_limit.py:43-74 | One try in numbers: granted, or a delay that is the rest of the penalty or else the time until a token is there; the try fails exactly when the delay is longer than the task may wait, and sleeps otherwise. |
| TokenBucket.PenaltyPlainly | app/core/rate_limit.py:58-62 | The deadline becomes the later of the old one and now plus the seconds, negative ones counting as none. |
| TokenBucket.TokensInRange | app/core/rate_limit.py:64-68 | Tokens stay between zero and the capacity in every run. |
| TokenBucket.GrantsBounded | app/core/rate_limit.py:43-74 | In any stretch of time T of any run, with penalties anywhere, at most capacity + refill * T tries are granted. |
| TokenBucket.NoGrantUnderPenalty | app/core/rate_limit.py:58-71 | No grant comes before the deadline of any earlier penalty. |
| TokenBucket.WaitingIsRewardedExactly | app/core/rate_limit.py:64-74 | A refused task that waits the returned delay, unrivalled and unpenalised, is granted if and only if no penalty was pending or the refill during the penalty gives a whole token. |
| TokenBucket.ShortPenaltyDelayIsNotEnough | app/core/rate_limit.py:70-71 | A case in which the returned delay is not enough. |
| TokenBucket.ShortPenaltyIsReachable | app/core/rate_limit.py:58-71 | A run that leads to that case. |
| SourceCache.SourceTTLCache.Lookup | app/core/source_cache.py:71-81 | Answers an entry exactly while it is fresh. |
| SourceCache.SourceTTLCache.LockFor | app/core/source_cache.py:84 | Returns the key's lock, a new one when there is none. |
| SourceCache.SourceTTLCache.EvictBeforeInsert | app/core/source_cache.py:195-207 | Expired entries go, then the oldest until one more fits; exactly the locks of removed entries go too. |
| SourceCache.RoomPlainly | app/core/source_cache.py:195-207 | Making room leaves fewer entries than the bound, none expired, none changed, and drops exactly the locks of those that went. |
| SourceCache.EvictedFirst | app/core/source_cache.py:201-207 | What goes although it has not expired comes before what stays, by expiry and then by refresh. |
| SourceCache.SourceTTLCache.Store | app/core/source_cache.py:109-126 | After making room the entry is the loaded value, with expiry the sooner of its time to live and its age limit. |
| SourceCache.SourceTTLCache.Fail | app/core/source_cache.py:134-160 | A failed load serves the entry only within its stale window and age limit, and forgets the lock of a key without entry. |
| SourceCache.SourceTTLCache.Peek | app/core/source_cache.py:177-193 | Answers within the stale window and age limit, and says whether the entry is fresh. |
| SourceCache.SourceTTLCache.Clear | app/core/source_cache.py:209-211 | Nothing remains. |
| SourceCache.CachedAnswers | app/core/source_cache.py:62-160 | In every interleaving a cached answer is the last value stored for its key; it is marked fresh only before load start + ttl and before load start + maximum age; stale, it comes from a failed load or a peek, by load start + ttl + stale window; and no answer comes after the maximum age. |
| SourceCache.AnsweredExactly | app/core/source_cache.py:71-160 | A get answers fresh if and only if the entry is there and both limits of its load are ahead; a failed load serves it stale if and only if it is there, within ttl + stale window and the maximum age; otherwise it raises. |
| SourceCache.PeekedExactly | app/core/source_cache.py:177-193 | The same for a peek, in both directions. |
| SourceCache.FreshWhileKept | app/core/source_cache.py:71-99 | After any load, while its entry is neither evicted nor cleared nor replaced, every call before load start + ttl and before the maximum age is answered with what was loaded, marked fresh. |
| SourceCache.EntriesWithinBound | app/core/source_cache.py:195-207 | After each insert the number of entries is within the caller's bound. |
| SourceCache.SingleFlightUnlessDropped | app/core/source_cache.py:84-102 | In every run, when two tasks load one key at once, an eviction, a failed load or a clear dropped the key's lock after the one had asked and before the other did. |
| SourceCache.DropsGrow | app/core/source_cache.py:134-211 | Between two moments of a run the count of a key's dropped locks grows only by a step that takes the key's lock away. |
| SourceCache.SnapshotsNeverOutliveTheirWindow | app/services/iski.py:270-280 | A dated snapshot is never answered from the cache, fresh or stale, once more time has passed on the cache's clock since it was read than was left of its window, however long loading took; so never later than capture plus window while the wall clock has not run ahead. |
| IskiFallback.IskiClient.Clear | app/connectors/iski.py:154-159 | A load starts by clearing the report. |
| IskiFallback.IskiClient.Conclude | app/connectors/iski.py:181-216 | The loop over the sources (and that of active_faults, 87-152) and the fallbacks after it end as specified, with the report they then find. |
| IskiFallback.EndedExactly | app/connectors/iski.py:181-216 | The first fresh source answers; failing that the first stale one; failing that the dated snapshot if within its window, and only then is an age set. |
| IskiFallback.ReportedAges | app/connectors/iski.py:154-212 | However loads overlap, one that answers from its snapshot reports that snapshot's age; any other reports an age exactly when a load that ended meanwhile left one and none has replaced it. |
| IskiFallback.ReportedAgeRespectsWindow | app/connectors/iski.py:283-286 | The age is reported exactly within the window, and the limit the cache derives from it leaves no more time than the window had left. |
| Paging.LoadSnapshot | app/services/datastore_sql.py:171-216 | From any server: ends within two requests more than the first reported total, in failure too, and on success returns `total` rows of strictly increasing `_id` within the byte and row budgets, the first and the last request and every page between reporting that total and those fields, and the records being exactly the pages' rows. From an honest server over a fixed table: that table, in order; and it succeeds when the budgets suffice. |
| Paging.CapturedPages | app/services/datastore_sql.py:195-210 | Of a captured snapshot, from any server: each page was asked where the one before had ended, for no more than was missing, told the final total, not estimated, and the same fields, and given exactly the records from there to its end. |
| Paging.CheckRows | app/services/datastore_sql.py:203-209 | Accepts a page exactly when its rows are objects of known columns whose `_id`s grow and continue the last one seen. |
| Paging.CaptureBounded | app/connectors/gtfs.py:232-268 | The loop of the stop list, and of the markets (app/connectors/city_open_data.py:122-165): ends, stays within its budgets, returns exactly the first reported total, every page having had the required fields and that total, and from an honest server the whole table, whatever the page sizes. |
| Paging.CaptureUnbounded | app/connectors/istanbulkart.py:90-137 | Ends and returns exactly the first reported total, and from an honest server the whole table. |
| Paging.PagedPages | app/connectors/istanbulkart.py:107-116 | In this loop and the one before, each page was asked where the one before had ended, and gave exactly the rows from there to its end. |
| Paging.ValidateStopIds | app/connectors/gtfs.py:270-282 | Accepts exactly a non-empty list of usable and distinct identifiers. |
| GeoRepository.InsertFeature | app/storage/geo.py:115-163 | An upsert by identifier, at the same rowid in table and index, after which the index again has one row per feature with its coordinates if it had before. |
| GeoRepository.UpsertAllExact | app/storage/geo.py:16-20 | After a list of upserts the table holds the last feature of every listed identifier, and every old feature whose identifier is not listed. |
| GeoRepository.ReplacedLayerExact | app/storage/geo.py:22-43 | The replaced layer is the new list's part of it, last of each identifier, and a feature of another layer stays exactly unless its identifier is listed. |
| GeoRepository.Repository.UpsertFeatures | app/storage/geo.py:16-20 | All of the list or nothing, and table and index stay in step. |
| GeoRepository.Repository.SelectLayer | app/storage/geo.py:31-34 | Reads the rowids of the layer. |
| GeoRepository.Repository.ReplaceSelected | app/storage/geo.py:35-43 | The transaction, with the rowids read before: the layer is replaced as a whole, and on failure table and index are unchanged. |
| GeoRepository.Repository.ReplaceFeatures | app/storage/geo.py:22-43 | Both steps with no commit in between: the layer is replaced by the list, and table and index stay in step. |
| GeoRepository.ReplacedRowsExact | app/storage/geo.py:35-43 | Whatever was committed since the rowids were read, the feature table itself ends with the layer replaced. |
| GeoRepository.DisturbedReplacementExactly | app/storage/geo.py:31-43 | Whatever was committed between the two steps, the index shadows the table afterwards if and only if every row that has entered or left the layer since is written anew by the replacement. |
| GeoRepository.UndisturbedRunsKeepIndex | app/storage/geo.py:16-43 | In every interleaving of processes in which no commit falls between the two steps of a replacement, the index shadows the table at every moment. |
| GeoRepository.DisturbedReplacementLosesAFeature | app/storage/geo.py:31-43 | A run of three processes after which a feature of another layer is in the table but found by no box query. |
| GeoRepository.Repository.BoxRowsIsScan | app/storage/geo.py:78-105 | The join with the index finds exactly what a plain scan of the features finds. |
| FacilityMerge.MatchExactly | app/connectors/social_facilities.py:547-555 | A match is the only row of the same name and address, or, when there is none, the only one of that name nearby. |
| FacilityMerge.MatchPlainly | app/connectors/social_facilities.py:547-555 | The same in terms of names, addresses and nearness: matched rows have the same name, not empty, and no other row competes. |
| FacilityMerge.LiveFieldsKept | app/connectors/social_facilities.py:527-535 | Field by field: a valid live value is kept, an invalid one takes the other row's when that is valid and stays otherwise; text is valid when not blank, degrees within the globe's bounds. |
| FacilityMerge.LiveRowsStand | app/connectors/social_facilities.py:506-544 | In the result of a merge every live row that is the first of its identity stands, with all its valid fields and all that is never merged unchanged. |
| FacilityMerge.PairingIsInjective | app/connectors/social_facilities.py:517-526 | Mutual matches pair each row with at most one other. |
| FacilityMerge.PairUp | app/connectors/social_facilities.py:517-526 | The loop finds exactly the mutual matches and the fallback rows they use up. |
| FacilityMerge.DeduplicatedExact | app/connectors/social_facilities.py:536-543 | One row for each identity, and none lost. |
| FacilityMerge.DeduplicatedKeepsFirst | app/connectors/social_facilities.py:536-543 | Each row kept is the first of its identity. |
| FacilityMerge.MergeRows | app/connectors/social_facilities.py:506-544 | The whole merge: without live rows the fallback as it is, otherwise enriched live rows and unmatched fallback rows without repeats. |
| FacilityMerge.MergeCovers | app/connectors/social_facilities.py:506-544 | With live rows, the result has pairwise distinct identities and covers every live and every unmatched fallback identity; every row is a live one, or an unmatched fallback row whose identity no live row has. |
| FacilityMerge.FirstStage | app/connectors/social_facilities.py:334-340 | Reported = accepted + skipped + duplicates, and a reported number is only ever raised as far as that needs. |
| FacilityMerge.SecondStage | app/services/social_facilities.py:150-190 | The loop over its dictionary of identities accepts, refuses and counts exactly as comparing each row with the first of its identity would; then reported = accepted + skipped + duplicates, raised only as far as that needs. |
| FacilityMerge.KeptExactly | app/services/social_facilities.py:160-183 | A row is accepted if and only if it is the first of its identity, or marked as in conflict, when it is, with that first row. |
| FacilityMerge.FirstsDiffer | app/services/social_facilities.py:167-183 | Accepted rows that are not marked have pairwise different identities. |
| FacilityMerge.EveryRowCounted | app/services/social_facilities.py:160-183 | Every row is accepted, invalid or a duplicate, and the invalid ones are exactly those that cannot be normalised. |
| DailyQuota.QuotaTable.Consume | app/storage/quota.py:37-57 | One call drops earlier days, counts the key's day if below the limit and answers what remains. |
| DailyQuota.QuotaIsExact | app/storage/quota.py:37-57 | With days never going back, a call is allowed exactly when fewer than `limit` of its key were that day, and `remaining` is the limit minus the allowed. |
| DailyQuota.UsageCountsSince | app/storage/quota.py:43-55 | In every run, whatever the order of days, the stored usage is the number of calls allowed since a later day was last seen. |
| DailyQuota.AnswerExactly | app/storage/quota.py:43-57 | In every run a call is allowed exactly when fewer than `limit` were since then, and `remaining` is the limit minus those. |
| DailyQuota.LimitExceededExactly | app/storage/quota.py:38-57 | For every run: a key is allowed more than its limit on a day if and only if it asks more often than that and a call of a later day, of whatever key, comes between two of its calls. |
| DailyQuota.UsageCountsAllowed | app/storage/quota.py:43-55 | Until a later day is seen, the stored usage of a day is the number of calls allowed, never above the limit. |
| DailyQuota.OnlyLaterDaysMatter | app/storage/quota.py:43-55 | In every run a key's usage is what its own calls and everybody's calls of later days alone would leave. |
| DailyQuota.KeysAreIndependent | app/storage/quota.py:44-55 | Until a later day is seen, a key's usage is what its own calls alone would leave. |
| DailyQuota.LimitCanBeExceeded | app/storage/quota.py:38-43 | Such a run: another key's call of the new day is served between two calls that fixed the old day. |
| Admission.ConcurrencyLimiter.Acquire | app/core/abuse_guard.py:73-79 | A slot is given exactly below the cap; a refusal is counted. |
| Admission.ConcurrencyLimiter.Release | app/core/abuse_guard.py:81-83 | Gives one slot back, not below zero. |
| Admission.CounterIsExact | app/core/abuse_guard.py:135-165 | In every interleaving of requests, however they end, `current` is the number of admitted requests not yet released, within the cap, and `rejected` the number refused. |
| Admission.AdmittedExactly | app/core/abuse_guard.py:73-79 | In every run a request is admitted if and only if fewer than the cap are running. |
| Admission.ReleaseNeverClamps | app/core/abuse_guard.py:81-83 | In every run a release takes exactly one from the counter: the clamp never acts. |
| Telemetry.ToolTelemetry.Start | app/core/tool_telemetry.py:126-131 | Counts the call as begun and in flight under its tool, or under the one label for unknown tools. |
| Telemetry.ToolTelemetry.Finish | app/core/tool_telemetry.py:133-150 | Moves one call from in flight to its outcome, and counts its error code if any. |
| Telemetry.CodeUnlessSuccess | app/core/tool_telemetry.py:163-182 | However a call ends, it has an error code exactly when it was no success. |
| Telemetry.ObservedExactly | app/core/tool_telemetry.py:63-98 | Which endings each outcome stands for, and which code each leaves. |
| Telemetry.CountersBalance | app/core/tool_telemetry.py:126-184 | In every interleaving and for every tool, calls = in flight + the sum of outcomes, in flight is the number of open calls, and the errors are as many as the unsuccessful calls. |

## Left out

- HTTP clients, retries, relays and the TypeScript worker: a source is an arbitrary function or an arbitrary outcome.
- SQL text, SQLite itself and the guarded SQL queries: tables are maps and sequences, a transaction is a step over the committed state, a SELECT before it a step of its own, `ORDER BY ... LIMIT` a stable sort and a cut.
- Time zones and calendar text: dates are day numbers, instants wall-clock microseconds of one zone, and printed times are compared as instants.
- The haversine distance, its rounding and the search box: parameters of the stop search; nothing is claimed about the box containing the circle.
- The 32-bit rounding of the spatial index: coordinates are reals. The limits and the order of `nearby` and `bbox_search` only sort and cut.
- Binary floating point: times, tokens and ages are exact reals.
- CoordinateCodec.ParseCoordinate: the decimal is read as an exact real, so the rounding of a binary float is not captured, and Unicode white space beyond the characters listed is not stripped.
- CSV reading, downloads, byte budgets, archive checks and deadlines of a load: ingestion takes rows as lines that are blank, malformed or good, and cancellation is not a step there.
- The foreign-key checks between tables: they are plain joins.
- ScheduleIngest.StagingDatabase.Insert: tables other than the stop times are kept as their primary keys, since only key conflicts can refuse their rows.
- TokenBucket.AsyncTokenBucket.Try: the sleep and the repeated call of `acquire` are separate tries of a run, so that others may come between.
- IskiFallback.IskiClient.Conclude: the answers of the sources, with their validation, are parameters, taken as all in when the loop over them runs, since the loop writes the shared report only once it has its answer. The names of the modes and the decoding of payloads are not modelled.
- SourceCache.SnapshotsNeverOutliveTheirWindow: the wall clock by which a snapshot's age is measured and the cache's monotonic clock are separate; nothing is promised about a wall clock that runs or is set ahead after the snapshot was read.
- GeoRepository.IsNextRowid: a new row takes the largest rowid plus one; SQLite's other rule, once the largest possible rowid is taken, is not modelled.
- SnapshotProtocol.ScheduleDatabase.Publish: only the columns the departure query looks at have types; the further stop columns are texts, and trips and routes lack the columns that are only shown.
- Name and address normalisation, identity, nearness and row normalisation of facilities are parameters; reservations and warning texts are left out.
- DailyQuota.QuotaTable.Consume: the reset time and the retry delay are formatting of the date.
- Telemetry.ToolTelemetry.Finish: durations, slow calls, cache events, returned rows and the last outcome are running totals without further law.
- HTML, XML and spreadsheet parsing, response envelopes, prompts, settings, authentication, CORS and static lists: formatting and lookup.
- Choosing catalogue resources and checking their addresses: lookups without state.

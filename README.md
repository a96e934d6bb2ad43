# Song-play star-schema ETL, modelled in Dafny

The ETL reads two JSON datasets: a song catalog, with one record per song and
its artist, and an activity log of user events. It writes five parquet
tables:

- the `songs` and `artists` dimension tables, from the catalog (`process_song_data`);
- the `users` and `time` dimension tables and the `songplays` fact table, from
  the log joined with the catalog (`process_log_data`).

This project models the transformations between the reads and the writes as
pure functions over tables, and proves what the schema promises about the
resulting tables.

Modules:

- `Schema`: the input records and the rows of the five tables. JSON columns
  that may be missing are `Nullable`, with SQL `NULL` semantics.
- `Relational`: the DataFrame operators the pipeline uses.
  - `Filter` is `filter`, `Project` is `select`, `Dedup` is `drop_duplicates`
    and `InnerJoin` is `join(..., how='inner')`.
  - `PartitionBy` is the grouping done by `write.parquet(partitionBy=...)`.
  - Each operator has bag (multiset) semantics, and the lemmas relate them.
- `Calendar`: the proleptic Gregorian calendar and Spark's `hour`,
  `dayofmonth`, `weekofyear`, `month`, `year` and `dayofweek`, applied to a
  UTC instant.
  - It has a day-numbering reference (`DayNumber`) and an era-based inverse
    (`CivilFromDays`), and the inverse is proved correct.
  - It has the ISO 8601 week rules, and Spark's Sunday-first day of the week.
- `SongData`: the `songs` and `artists` tables and the `songs` partitioning.
- `LogData`:
  - the `NextSong` filter;
  - the `users` and `time` tables;
  - the two joins that build `songplays`, and the partitioning of `time` and
    `songplays`.
- `Pipeline`: how the fact table refers to the dimension tables, and the
  tables computed for small concrete inputs.

Modelling choices:

- Tables are sequences. `Dedup` keeps the first occurrence of each row. Spark
  promises no row order, so the lemmas state membership, uniqueness and
  multiplicity, which hold for any order.
- `monotonically_increasing_id()` gives the row its position in the first
  join's output. Spark promises ids that are monotonically increasing and
  unique, but not consecutive. Position ids increase along the rows and are
  unique (`LogData.StagePlays`, `LogData.SongplayIdsDistinct`), and the
  songplays row of the i-th pair has id i (`LogData.SongplaysTable`).
- `start_time` is an `Instant` counted in milliseconds from
  1970-01-01T00:00:00Z. The UDF divides the millisecond count by 1000 and
  keeps microsecond precision, so distinct `ts` values give distinct instants.
- A catalog record carries, besides the nine columns the tables select, the
  values of the song file's other fields (`otherColumns`). No table selects
  them, but the `drop_duplicates()` at `etl_local.py:111` compares them, so
  two song files that differ only there stay two catalog records and each
  joins with a matching play.
- The catalog read at `etl_local.py:49` and the one at `etl_local.py:111` are
  the same sequence `catalog`. The second read loads every file in the leaf
  directories under `song_data`, whatever its extension, while the first
  reads only the `.json` files there; the two agree when those directories
  hold nothing but the `.json` song files.

## Model

| member | source | states |
|---|---|---|
| `Relational.Dedup` | etl_local.py:52 | the result has no duplicate rows and holds exactly the rows of the input |
| `Relational.DedupOfDistinct` | etl_local.py:121 | dropping duplicates from a table that has none returns it unchanged |
| `Relational.DedupIdempotent` | etl_local.py:52 | dropping duplicates twice is the same as dropping them once |
| `Relational.Filter` | etl_local.py:82 | each row is kept exactly as often as it occurs if it passes the predicate, and never otherwise |
| `Relational.FilterAppend` | etl_local.py:82 | filtering a concatenation filters each part |
| `Relational.FilterInsertRejected` | etl_local.py:82 | inserting a rejected row anywhere does not change the filter's result |
| `Relational.Project` | etl_local.py:58 | select maps every row through the column projection, in order, and its rows are exactly the images of input rows |
| `Relational.InnerJoin` | etl_local.py:114 | a pair is in the join iff its left row is in the left table, its right row is in the right table and they satisfy the join condition |
| `Relational.InnerJoinAppend` | etl_local.py:114 | joining a concatenated left table joins each part |
| `Relational.InnerJoinInsertUnmatched` | etl_local.py:114 | left rows that match nothing can be inserted without changing the join |
| `Relational.InnerJoinMultiplicity` | etl_local.py:114 | a matching pair occurs (count of its left row) times (count of its right row) times; a non-matching pair never occurs |
| `Relational.JoinRowsOfLeftRow` | etl_local.py:114 | a left row yields one joined row per right row it matches, once per occurrence on the left |
| `Relational.InnerJoinFunctional` | etl_local.py:119 | if every left row meets exactly one row of a duplicate-free right table, the join keeps the left table row for row, with that partner attached |
| `Relational.DistinctMultiplicity` | etl_local.py:111 | in a duplicate-free table every row occurs exactly once |
| `Relational.PartitionBy` | etl_local.py:55 | the groups are keyed exactly by the key values present, each is nonempty, and each holds exactly the rows with its key, as often as they occur |
| `Relational.PartitionConsistent` | etl_local.py:55 | every row of a group carries the group's key, and every row is in the group of its own key |
| `Calendar.CivilFromDaysCorrect` | etl_local.py:91 | the date computed for a day number is a valid date, and the reference day numbering maps it back to that day |
| `Calendar.CivilFromDayNumber` | etl_local.py:91 | every valid date is recovered from its day number, so the date of an instant is unique |
| `Calendar.IsoWeekOneRule` | etl_local.py:101 | ISO week 1 starts on a Monday, has at least four days in its year, and the week before it has at most three |
| `Calendar.IsoYearLength` | etl_local.py:101 | an ISO week-numbering year has 52 or 53 weeks |
| `Calendar.IsoWeekBounds` | etl_local.py:101 | every day falls in the weeks of its ISO week-numbering year, and its week number is between 1 and 53 |
| `Calendar.SparkDayOfWeekConvention` | etl_local.py:104 | dayofweek is 1..7, is the ISO weekday shifted so that Sunday is 1, and advances by one per day, wrapping from Saturday to Sunday |
| `Calendar.DeriveTimeFields` | etl_local.py:99-104 | hour 0..23, day 1..31, week 1..53, month 1..12, weekday 1..7; year/month/day form a valid date; the instant lies in the named hour of the named day; week and weekday are that day's ISO week and Spark day of week |
| `Calendar.NewYear2001` | etl_local.py:91-104 | ts = 978307200000 gives hour 0 of Monday 1 January 2001: day 1, ISO week 1, month 1, year 2001, weekday 2 |
| `SongData.SongsTable` | etl_local.py:52 | songs has no duplicate rows, and a row is in it iff it is (song_id, title, artist_id, year, duration) of some catalog record; `SongColumns` is that projection |
| `SongData.ArtistsTable` | etl_local.py:58 | artists has no duplicate rows, and a row is in it iff it is (artist_id, artist_name, artist_location, artist_latitude, artist_longitude) of some catalog record; `ArtistColumns` is that projection |
| `SongData.SongTablesDedupStable` | etl_local.py:52-58 | dropping duplicates again changes neither songs nor artists |
| `SongData.SongsPartitions` | etl_local.py:55 | each (year, artist_id) partition holds exactly the songs rows with that year and artist_id, and every row is in its partition |
| `LogData.SongPlayEvents` | etl_local.py:82 | the filtered log holds every NextSong event as often as it was logged, and nothing else; every kept event has a non-NULL page equal to NextSong, so a NULL page is filtered out (`IsSongPlay` is the test) |
| `LogData.UsersTable` | etl_local.py:85 | users has no duplicate rows, and a row is in it iff it is (userId, firstName, lastName, gender, level) of some NextSong event; `UserColumns` is that projection |
| `LogData.TimeColumns` | etl_local.py:91-105 | the time row keeps ts and its instant `StartTime(ts)`, the instant exactly ts milliseconds after the epoch; hour 0..23, day 1..31, week 1..53, month 1..12, weekday 1..7; year/month/day form a valid date; the instant lies in the named UTC hour of the named day; week and weekday are that day's ISO week and Spark day of week |
| `LogData.TimeTable` | etl_local.py:91-105 | time has no duplicate rows, and a row is in it iff it is the time row of the timestamp of some NextSong event |
| `LogData.TimeTableKeyedByStartTime` | etl_local.py:91-105 | start_time is a key of the time table, and each row's calendar columns are in range and locate its instant |
| `LogData.TimePartitions` | etl_local.py:108 | each (year, month) partition holds exactly the time rows with that year and month, and every row is in its partition |
| `LogData.SongplaysTable` | etl_local.py:114-121 | songplays has exactly one row per pair of the first join, in order: the i-th row has id i, the event's start_time, user, level, session, location and agent, the record's song and artist ids, and the year and month of the event's timestamp; `SameStartTime` is the time-join condition at :119 and `AttachYearMonth` the select at :120-121 |
| `LogData.PlaysJoin` | etl_local.py:111-114 | a pair is in the first join iff its event is a NextSong event of the log, its record is in the catalog, and the song equals the title (`SameTitle`); every pair has a non-NULL song equal to a non-NULL title, so NULL joins nothing |
| `LogData.StagePlays` | etl_local.py:115-116 | one staged row per joined pair, in order, carrying the pair's columns; the ids increase along the rows, so they are unique (carried to songplays by `SongplaysTable` and `SongplayIdsDistinct`) |
| `LogData.SongplaysDeterminedByJoin` | etl_local.py:119-121 | the time join and the final drop_duplicates add or lose nothing: songplays is determined by the first join |
| `LogData.SongplayIdsDistinct` | etl_local.py:115 | songplay_id values are pairwise distinct |
| `LogData.SongplayProvenance` | etl_local.py:114-121 | every songplays row comes from a NextSong event and a catalog record with its title, and carries their columns |
| `LogData.SongplaysFanOut` | etl_local.py:111-121 | an event yields one first-join pair per distinct catalog record carrying its title, once per time it was logged; songplays has one row per pair |
| `LogData.PlaysJoinMultiplicity` | etl_local.py:111-114 | a pair (event, record) occurs in the first join as often as the event was logged, when the event is a NextSong event, the titles match and the record is in the catalog; otherwise never |
| `LogData.SongPlayEventsInsert` | etl_local.py:82 | the NextSong filter of a log with one inserted event is the filter of the parts around it plus the filter of the event |
| `LogData.TablesDependOnSongPlaysOnly` | etl_local.py:82-121 | users, time and songplays read the log only through its NextSong events |
| `LogData.NonSongPlayIgnored` | etl_local.py:82 | inserting a non-NextSong event anywhere in the log changes none of users, time and songplays |
| `LogData.UnmatchedEventJoin` | etl_local.py:114 | an event whose song matches no catalog title adds no pair to the first join |
| `LogData.UnmatchedEventIgnored` | etl_local.py:114-121 | an event whose song matches no catalog title adds no songplays row |
| `LogData.LogTablesDedupStable` | etl_local.py:85-121 | dropping duplicates again changes none of users, time and songplays |
| `LogData.SongplaysPartitions` | etl_local.py:124 | each (year, month) partition holds exactly the songplays rows with that year and month, and every row is in its partition |
| `Pipeline.SongplaysReferToDimensions` | etl_local.py:114-121 | every songplays row has a songs row with its song_id and artist_id, an artists row with its artist_id, a users row with its user_id and level, and a time row with its start_time, year and month |
| `Pipeline.SingleEntrySongs` | etl_local.py:52 | one catalog record gives the one songs row holding its song columns |
| `Pipeline.SinglePlayTime` | etl_local.py:99-105 | one NextSong event at 978307200000 gives the one time row (hour 0, day 1, week 1, month 1, year 2001, weekday 2) |
| `Pipeline.OnePlayOneEntry` | etl_local.py:114-121 | one play of a title that one catalog record carries gives one songplays row, with id 0 |
| `Pipeline.OnePlayTwoEntries` | etl_local.py:111-121 | one play of a title that two distinct catalog records carry gives two songplays rows, with ids 0 and 1 |
| `Pipeline.SinglePlay` | etl_local.py:82-121 | a concrete play gives one songplays row, id 0, with the record's song and artist ids, the event's user, level, session, location and agent, and year 2001, month 1 |
| `Pipeline.SharedTitleFansOut` | etl_local.py:111-121 | a concrete play of a title shared by two catalog records gives two songplays rows, with ids 0 and 1, one per record |
| `Pipeline.HomePageOnly` | etl_local.py:82 | a log holding only a Home page view gives empty users, time and songplays tables |

## Left out

- `unzip_files`, `create_spark_session` and `main` are left out. They extract archives, configure the Spark session and sequence the two steps, and none of them transforms a table.
- Reading JSON (`spark.read.json`, `spark.read.format('json').load`) is left out. The model starts from the parsed records. It does not model how missing or mistyped JSON fields become NULL, beyond the `Nullable` columns, and it keeps the song file's unselected fields only as an opaque list of values, with no names or types.
- Writing parquet (`write.parquet`) is left out: file layout, `mode='overwrite'`, and what a reader sees if a write fails part-way. Partitioning is modelled only as the grouping of rows by key (`PartitionBy`).
- The bit layout of `monotonically_increasing_id()` is left out: partition index in the upper bits, record number in the lower bits. Ids are positions in the join output, which keeps both properties Spark promises: they increase along the rows and are unique. Spark's ids are not consecutive in general; the model's happen to be.
- The floating-point division `int(x) / 1000` in both UDFs is left out. For timestamps of the centuries around the epoch the quotient, rounded to the microsecond, is exact, and the model counts time in integer milliseconds.
- The `start_time_dtf` column (the date-typed UDF) is left out. No table selects it.
- The unused imports are left out: `configparser`, `pandas`, `date_format` and the `pyspark.sql.types` names other than the two UDF result types.
- Time zones are left out. Two zones act on `start_time`: the Python worker's local zone, in which the `TimestampType` return conversion of the UDF (`time.mktime`) reads the naive datetime the UDF returns, and the Spark session zone, in which `hour`, `dayofmonth`, `weekofyear`, `month`, `year` and `dayofweek` read the stored instant. The model takes both to be UTC. When they differ, the stored instant and the derived columns shift by the offsets.
- The two catalog reads are taken to give the same records. That holds only when the leaf directories under `song_data` hold nothing but the `.json` files the first glob matches.
- Calendar.DeriveTimeFields: does not model the range limit of Python's `datetime` (years 1 to 9999). Outside that range the UDF raises an error, but the calendar functions are defined for all integers. A NULL `ts`, on which the UDF also raises, is not modelled: `ts` is a plain integer.
- Numeric columns of the catalog (`year`, `duration`) are not nullable in the model. `duration` is a `real`, with no NaN or rounding.
- Row order in the output tables is a modelling choice and not a promise of Spark. Every proved property about rows is stated as membership or multiplicity, or about the sequence that the model's own order produces.

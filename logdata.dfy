/**
 * process_log_data: the users and time dimension tables and the songplays
 * fact table, built from the activity log and the song catalog.
 */
module LogData {
  import opened Schema
  import opened Relational
  import opened Calendar

  /** The page value that marks an event as a song play. */
  const NextSong: string := "NextSong"

  /** page == 'NextSong'; a NULL page is not equal to anything and fails the test. */
  predicate IsSongPlay(e: EventRecord) {
    e.page == Val(NextSong)
  }

  /** The log filtered to song plays: every play event, as often as it was logged, and nothing else. */
  function SongPlayEvents(events: seq<EventRecord>): (plays: seq<EventRecord>)
    ensures forall e :: multiset(plays)[e] == if IsSongPlay(e) then multiset(events)[e] else 0
    ensures forall e :: e in plays <==> e in events && IsSongPlay(e)
    ensures forall e :: e in plays ==> e.page.Val? && e.page.value == NextSong
  {
    Filter(events, IsSongPlay)
  }

  /** select('userId', 'firstName', 'lastName', 'gender', 'level') */
  function UserColumns(e: EventRecord): UserRow {
    UserRow(e.userId, e.firstName, e.lastName, e.gender, e.level)
  }

  /**
   * The users table: the user columns of every song-play event, each
   * distinct row once; a user seen with two levels has two rows.
   */
  function UsersTable(events: seq<EventRecord>): (users: seq<UserRow>)
    ensures NoDuplicates(users)
    ensures forall u :: u in users <==>
      exists e :: e in events && IsSongPlay(e) && u == UserRow(e.userId, e.firstName, e.lastName, e.gender, e.level)
  {
    Dedup(Project(SongPlayEvents(events), UserColumns))
  }

  /**
   * start_time: the instant `ts` milliseconds after the epoch.  Dividing the
   * millisecond count by 1000 and reading it back at microsecond precision
   * loses nothing, so distinct `ts` values give distinct instants.
   */
  function StartTime(ts: int): Instant {
    Instant(ts)
  }

  /**
   * The time-table row of an event timestamp: it keeps `ts` and its instant,
   * and its calendar columns are in range and name the UTC hour, ISO week
   * and Spark day of week of that instant.
   */
  function TimeColumns(ts: int): (t: TimeRow)
    ensures t.ts == ts && t.startTime == StartTime(ts)
    ensures 0 <= t.hour <= 23 && 1 <= t.day <= 31 && 1 <= t.week <= 53
    ensures 1 <= t.month <= 12 && 1 <= t.weekday <= 7
    ensures ValidDate(t.year, t.month, t.day)
    ensures var start := DayNumber(t.year, t.month, t.day) * MillisPerDay + t.hour * MillisPerHour;
      start <= ts < start + MillisPerHour
    ensures t.week == IsoWeek(DayNumber(t.year, t.month, t.day))
    ensures t.weekday == SparkDayOfWeek(DayNumber(t.year, t.month, t.day))
  {
    var f := DeriveTimeFields(ts);
    TimeRow(ts, StartTime(ts), f.hour, f.day, f.week, f.month, f.year, f.weekday)
  }

  function EventTimeColumns(e: EventRecord): TimeRow {
    TimeColumns(e.ts)
  }

  /** The time table: one row per distinct timestamp of a song-play event. */
  function TimeTable(events: seq<EventRecord>): (time: seq<TimeRow>)
    ensures NoDuplicates(time)
    ensures forall t :: t in time <==> exists e :: e in events && IsSongPlay(e) && TimeColumns(e.ts) == t
  {
    Dedup(Project(SongPlayEvents(events), EventTimeColumns))
  }

  /**
   * start_time is a key of the time table, and each row's calendar columns
   * are in range and name the hour that contains its instant.
   */
  lemma TimeTableKeyedByStartTime(events: seq<EventRecord>)
    ensures forall i, j :: 0 <= i < j < |TimeTable(events)| ==>
      TimeTable(events)[i].startTime != TimeTable(events)[j].startTime
    ensures forall t :: t in TimeTable(events) ==>
      && 0 <= t.hour <= 23 && 1 <= t.day <= 31 && 1 <= t.week <= 53
      && 1 <= t.month <= 12 && 1 <= t.weekday <= 7
      && ValidDate(t.year, t.month, t.day)
      && DayNumber(t.year, t.month, t.day) * MillisPerDay + t.hour * MillisPerHour <= t.startTime.epochMillis
      && t.startTime.epochMillis < DayNumber(t.year, t.month, t.day) * MillisPerDay + (t.hour + 1) * MillisPerHour
  {
    var time := TimeTable(events);
    forall i, j | 0 <= i < j < |time| ensures time[i].startTime != time[j].startTime {
      assert time[i] in time && time[j] in time;
      assert time[i] == TimeColumns(time[i].ts) && time[j] == TimeColumns(time[j].ts);
    }
  }

  /** The time table is written partitioned by year, then month. */
  function TimePartitionKey(t: TimeRow): (int, int) {
    (t.year, t.month)
  }

  /** The time partitions: each group holds exactly the rows whose year and month are its key. */
  function TimePartitions(time: seq<TimeRow>): (groups: map<(int, int), seq<TimeRow>>)
    ensures forall k, t :: k in groups && t in groups[k] ==> TimePartitionKey(t) == k
    ensures forall t :: t in time ==> TimePartitionKey(t) in groups && t in groups[TimePartitionKey(t)]
    ensures forall k, t :: k in groups ==>
      multiset(groups[k])[t] == if TimePartitionKey(t) == k then multiset(time)[t] else 0
  {
    PartitionConsistent(time, TimePartitionKey);
    PartitionBy(time, TimePartitionKey)
  }

  /** df.song == song_df.title: SQL equality, so a NULL song or title matches nothing. */
  predicate SameTitle(e: EventRecord, c: CatalogRecord) {
    e.song.Val? && e.song == c.title
  }

  /** The first join: song-play events against the deduplicated catalog, on song title. */
  function PlaysJoin(events: seq<EventRecord>, catalog: seq<CatalogRecord>): (joined: seq<(EventRecord, CatalogRecord)>)
    ensures forall q :: q in joined <==> q.0 in events && IsSongPlay(q.0) && q.1 in catalog && SameTitle(q.0, q.1)
    ensures forall q :: q in joined ==> q.0.song.Val? && q.1.title.Val? && q.0.song.value == q.1.title.value
  {
    InnerJoin(SongPlayEvents(events), Dedup(catalog), SameTitle)
  }

  /** A row of the fact table before the time join, with its surrogate id. */
  datatype StagedPlay = StagedPlay(
    songplayId: nat,
    startTime: Instant,
    userId: Text,
    level: Text,
    songId: Text,
    artistId: Text,
    sessionId: Text,
    location: Text,
    userAgent: Text)

  function StagePlay(id: nat, e: EventRecord, c: CatalogRecord): StagedPlay {
    StagedPlay(id, StartTime(e.ts), e.userId, e.level, c.songId, c.artistId, e.sessionId, e.location, e.userAgent)
  }

  /**
   * The select after the first join.  monotonically_increasing_id() is
   * modelled by the row's position in the join: the ids increase along the
   * rows, so they are unique, as Spark promises.
   */
  function StagePlays(joined: seq<(EventRecord, CatalogRecord)>): (staged: seq<StagedPlay>)
    ensures |staged| == |joined|
    ensures forall i :: 0 <= i < |joined| ==> staged[i] == StagePlay(i, joined[i].0, joined[i].1)
    ensures forall i, j :: 0 <= i < j < |staged| ==> staged[i].songplayId < staged[j].songplayId
  {
    seq(|joined|, i requires 0 <= i < |joined| => StagePlay(i, joined[i].0, joined[i].1))
  }

  /** songplays_table.start_time == time_table.start_time */
  predicate SameStartTime(p: StagedPlay, t: TimeRow) {
    p.startTime == t.startTime
  }

  /** The select after the second join: the staged columns plus the time row's year and month. */
  function AttachYearMonth(q: (StagedPlay, TimeRow)): SongplayRow {
    var (p, t) := q;
    SongplayRow(p.songplayId, p.startTime, p.userId, p.level, p.songId, p.artistId,
                p.sessionId, p.location, p.userAgent, t.year, t.month)
  }

  /**
   * The songplays table as the source builds it: join, id, join with time,
   * select, drop duplicates.  The second join and the final drop_duplicates
   * neither lose nor repeat a row: songplays has exactly one row per pair of
   * the first join, in the same order, whose id is the pair's position and
   * whose year and month are those of the event's timestamp.
   */
  function SongplaysTable(events: seq<EventRecord>, catalog: seq<CatalogRecord>): (plays: seq<SongplayRow>)
    ensures |plays| == |PlaysJoin(events, catalog)|
    ensures forall i :: 0 <= i < |plays| ==>
      plays[i] == PlayRow(i, PlaysJoin(events, catalog)[i].0, PlaysJoin(events, catalog)[i].1)
  {
    var staged := StagePlays(PlaysJoin(events, catalog));
    TimeJoinRowForRow(events, catalog);
    Dedup(Project(InnerJoin(staged, TimeTable(events), SameStartTime), AttachYearMonth))
  }

  /** The fact row for the `id`-th pair of the first join. */
  function PlayRow(id: nat, e: EventRecord, c: CatalogRecord): SongplayRow {
    var f := DeriveTimeFields(e.ts);
    SongplayRow(id, StartTime(e.ts), e.userId, e.level, c.songId, c.artistId,
                e.sessionId, e.location, e.userAgent, f.year, f.month)
  }

  /** The time row a staged play meets in the second join. */
  function TimeRowOfPlay(p: StagedPlay): TimeRow {
    TimeColumns(p.startTime.epochMillis)
  }

  /** Every staged play meets exactly its own time row, and the ids keep the joined rows apart. */
  lemma TimeJoinRowForRow(events: seq<EventRecord>, catalog: seq<CatalogRecord>)
    ensures var joined := PlaysJoin(events, catalog);
      var rows := Dedup(Project(InnerJoin(StagePlays(joined), TimeTable(events), SameStartTime), AttachYearMonth));
      |rows| == |joined|
      && forall i :: 0 <= i < |joined| ==> rows[i] == PlayRow(i, joined[i].0, joined[i].1)
  {
    var joined := PlaysJoin(events, catalog);
    var staged := StagePlays(joined);
    var time := TimeTable(events);
    forall p | p in staged ensures TimeRowOfPlay(p) in time && SameStartTime(p, TimeRowOfPlay(p)) {
      var i :| 0 <= i < |staged| && staged[i] == p;
      assert joined[i] in joined;
      var e := joined[i].0;
      assert e in SongPlayEvents(events);
      assert TimeColumns(e.ts) in time;
    }
    forall p, t | p in staged && t in time && SameStartTime(p, t) ensures t == TimeRowOfPlay(p) {
      var e :| e in events && IsSongPlay(e) && TimeColumns(e.ts) == t;
    }
    InnerJoinFunctional(staged, time, SameStartTime, TimeRowOfPlay);
    var paired := InnerJoin(staged, time, SameStartTime);
    var rows := Project(paired, AttachYearMonth);
    forall i | 0 <= i < |joined| ensures rows[i] == PlayRow(i, joined[i].0, joined[i].1) {
      assert paired[i] == (staged[i], TimeRowOfPlay(staged[i]));
    }
    assert NoDuplicates(rows) by {
      forall i, j | 0 <= i < j < |rows| ensures rows[i] != rows[j] {
        assert rows[i].songplayId == i && rows[j].songplayId == j;
      }
    }
    DedupOfDistinct(rows);
  }

  /**
   * The songplays table is determined by the first join alone: the join
   * with the time table only attaches year and month.
   */
  lemma SongplaysDeterminedByJoin(events: seq<EventRecord>, other: seq<EventRecord>, catalog: seq<CatalogRecord>)
    requires PlaysJoin(events, catalog) == PlaysJoin(other, catalog)
    ensures SongplaysTable(events, catalog) == SongplaysTable(other, catalog)
  {
  }

  /** songplay_id values are pairwise distinct (and need not be contiguous in general). */
  lemma SongplayIdsDistinct(events: seq<EventRecord>, catalog: seq<CatalogRecord>)
    ensures var plays := SongplaysTable(events, catalog);
      forall i, j :: 0 <= i < j < |plays| ==> plays[i].songplayId != plays[j].songplayId
  {
  }

  /**
   * Provenance of a fact row: it comes from a song-play event and a catalog
   * entry whose title equals the event's song.  Its song_id and artist_id
   * are the entry's, its other columns the event's, and its year and month
   * those of the event's timestamp.
   */
  lemma SongplayProvenance(events: seq<EventRecord>, catalog: seq<CatalogRecord>)
    ensures forall p :: p in SongplaysTable(events, catalog) ==> ComesFromPlayOf(events, catalog, p)
  {
    var plays := SongplaysTable(events, catalog);
    forall p | p in plays ensures ComesFromPlayOf(events, catalog, p) {
      var i :| 0 <= i < |plays| && plays[i] == p;
      RowProvenance(events, catalog, i);
    }
  }

  /**
   * The fact row `p` is built from a song-play event of the log and a
   * catalog entry whose title equals the event's song.
   */
  predicate ComesFromPlayOf(events: seq<EventRecord>, catalog: seq<CatalogRecord>, p: SongplayRow) {
    exists e, c :: e in events && IsSongPlay(e) && c in catalog && SameTitle(e, c) && p == PlayRow(p.songplayId, e, c)
  }

  lemma RowProvenance(events: seq<EventRecord>, catalog: seq<CatalogRecord>, i: int)
    requires 0 <= i < |SongplaysTable(events, catalog)|
    ensures ComesFromPlayOf(events, catalog, SongplaysTable(events, catalog)[i])
  {
    var q := PlaysJoin(events, catalog)[i];
    PairOfPlaysJoin(events, catalog, q);
    assert SongplaysTable(events, catalog)[i] == PlayRow(i, q.0, q.1);
  }

  /** A pair of the first join: a song-play event and a catalog entry with its title. */
  lemma PairOfPlaysJoin(events: seq<EventRecord>, catalog: seq<CatalogRecord>, q: (EventRecord, CatalogRecord))
    requires q in PlaysJoin(events, catalog)
    ensures q.0 in events && IsSongPlay(q.0) && q.1 in catalog && SameTitle(q.0, q.1)
  {
  }

  /**
   * Fan-out of the title join: an event yields one first-join pair per
   * distinct catalog entry carrying its title, once for each time it was
   * logged as a song play; songplays has one row per such pair (the length
   * half of `SongplaysTable`'s contract, restated here so the count reads
   * through to the fact table).
   */
  lemma SongplaysFanOut(events: seq<EventRecord>, catalog: seq<CatalogRecord>, e: EventRecord)
    ensures |Filter(PlaysJoin(events, catalog), LeftIs(e))|
         == multiset(SongPlayEvents(events))[e] * |Filter(Dedup(catalog), PairsWith(SameTitle, e))|
    ensures |SongplaysTable(events, catalog)| == |PlaysJoin(events, catalog)|
  {
    JoinRowsOfLeftRow(SongPlayEvents(events), Dedup(catalog), SameTitle, e);
  }

  /**
   * Bag view of the first join: a (song play, catalog entry) pair with
   * matching title appears once per logging of the event, provided the
   * entry is in the catalog; any other pair never appears.
   */
  lemma PlaysJoinMultiplicity(events: seq<EventRecord>, catalog: seq<CatalogRecord>, e: EventRecord, c: CatalogRecord)
    ensures multiset(PlaysJoin(events, catalog))[(e, c)]
         == if IsSongPlay(e) && SameTitle(e, c) && c in catalog then multiset(events)[e] else 0
  {
    InnerJoinMultiplicity(SongPlayEvents(events), Dedup(catalog), SameTitle, e, c);
    DistinctMultiplicity(Dedup(catalog), c);
  }

  /** The event log with one more event `e` inserted at position `i`. */
  function InsertEvent(events: seq<EventRecord>, i: nat, e: EventRecord): seq<EventRecord>
    requires i <= |events|
  {
    events[..i] + [e] + events[i..]
  }

  lemma SongPlayEventsInsert(events: seq<EventRecord>, i: nat, e: EventRecord)
    requires i <= |events|
    ensures SongPlayEvents(InsertEvent(events, i, e))
         == SongPlayEvents(events[..i]) + SongPlayEvents([e]) + SongPlayEvents(events[i..])
    ensures SongPlayEvents(events) == SongPlayEvents(events[..i]) + SongPlayEvents(events[i..])
  {
    assert events == events[..i] + events[i..];
    FilterInsert(events[..i], e, events[i..], IsSongPlay);
  }

  /** The three log-side tables read the log only through its song-play events. */
  lemma TablesDependOnSongPlaysOnly(events: seq<EventRecord>, other: seq<EventRecord>, catalog: seq<CatalogRecord>)
    requires SongPlayEvents(events) == SongPlayEvents(other)
    ensures UsersTable(events) == UsersTable(other)
    ensures TimeTable(events) == TimeTable(other)
    ensures SongplaysTable(events, catalog) == SongplaysTable(other, catalog)
  {
  }

  /**
   * An event whose page is not NextSong contributes no row to users, time
   * or songplays: inserting it anywhere in the log changes none of them.
   */
  lemma NonSongPlayIgnored(events: seq<EventRecord>, i: nat, e: EventRecord, catalog: seq<CatalogRecord>)
    requires i <= |events|
    requires !IsSongPlay(e)
    ensures UsersTable(InsertEvent(events, i, e)) == UsersTable(events)
    ensures TimeTable(InsertEvent(events, i, e)) == TimeTable(events)
    ensures SongplaysTable(InsertEvent(events, i, e), catalog) == SongplaysTable(events, catalog)
  {
    NonSongPlayFiltered(events, i, e);
    TablesDependOnSongPlaysOnly(InsertEvent(events, i, e), events, catalog);
  }

  lemma NonSongPlayFiltered(events: seq<EventRecord>, i: nat, e: EventRecord)
    requires i <= |events|
    requires !IsSongPlay(e)
    ensures SongPlayEvents(InsertEvent(events, i, e)) == SongPlayEvents(events)
  {
    assert events == events[..i] + events[i..];
    FilterInsertRejected(events[..i], e, events[i..], IsSongPlay);
  }

  /**
   * Join exclusion: an event whose song matches no catalog title adds no
   * songplays row, wherever it is inserted in the log.
   */
  lemma UnmatchedEventIgnored(events: seq<EventRecord>, i: nat, e: EventRecord, catalog: seq<CatalogRecord>)
    requires i <= |events|
    requires forall c :: c in catalog ==> !SameTitle(e, c)
    ensures SongplaysTable(InsertEvent(events, i, e), catalog) == SongplaysTable(events, catalog)
  {
    UnmatchedEventJoin(events, i, e, catalog);
    SongplaysDeterminedByJoin(InsertEvent(events, i, e), events, catalog);
  }

  /** An event whose song matches no catalog title adds no pair to the first join. */
  lemma UnmatchedEventJoin(events: seq<EventRecord>, i: nat, e: EventRecord, catalog: seq<CatalogRecord>)
    requires i <= |events|
    requires forall c :: c in catalog ==> !SameTitle(e, c)
    ensures PlaysJoin(InsertEvent(events, i, e), catalog) == PlaysJoin(events, catalog)
  {
    var before, after := SongPlayEvents(events[..i]), SongPlayEvents(events[i..]);
    SongPlayEventsInsert(events, i, e);
    UnmatchedEventPairs(e, catalog);
    InnerJoinInsertUnmatched(before, SongPlayEvents([e]), after, Dedup(catalog), SameTitle);
  }

  lemma UnmatchedEventPairs(e: EventRecord, catalog: seq<CatalogRecord>)
    requires forall c :: c in catalog ==> !SameTitle(e, c)
    ensures InnerJoin(SongPlayEvents([e]), Dedup(catalog), SameTitle) == []
  {
    SingleRow(e, IsSongPlay, (x: EventRecord) => x);
    if IsSongPlay(e) {
      InnerJoinSingleLeft(e, Dedup(catalog), SameTitle);
      MatchesNone(e, Dedup(catalog), SameTitle);
    }
  }

  /** The three log-side tables are free of duplicates: dropping them again changes nothing. */
  lemma LogTablesDedupStable(events: seq<EventRecord>, catalog: seq<CatalogRecord>)
    ensures Dedup(UsersTable(events)) == UsersTable(events)
    ensures Dedup(TimeTable(events)) == TimeTable(events)
    ensures Dedup(SongplaysTable(events, catalog)) == SongplaysTable(events, catalog)
  {
    DedupIdempotent(Project(SongPlayEvents(events), UserColumns));
    DedupIdempotent(Project(SongPlayEvents(events), EventTimeColumns));
    var staged := StagePlays(PlaysJoin(events, catalog));
    DedupIdempotent(Project(InnerJoin(staged, TimeTable(events), SameStartTime), AttachYearMonth));
  }

  /** The songplays table is written partitioned by year, then month. */
  function SongplayPartitionKey(p: SongplayRow): (int, int) {
    (p.year, p.month)
  }

  /** The songplays partitions: each group holds exactly the rows whose year and month are its key. */
  function SongplaysPartitions(plays: seq<SongplayRow>): (groups: map<(int, int), seq<SongplayRow>>)
    ensures forall k, p :: k in groups && p in groups[k] ==> SongplayPartitionKey(p) == k
    ensures forall p :: p in plays ==> SongplayPartitionKey(p) in groups && p in groups[SongplayPartitionKey(p)]
    ensures forall k, p :: k in groups ==>
      multiset(groups[k])[p] == if SongplayPartitionKey(p) == k then multiset(plays)[p] else 0
  {
    PartitionConsistent(plays, SongplayPartitionKey);
    PartitionBy(plays, SongplayPartitionKey)
  }
}

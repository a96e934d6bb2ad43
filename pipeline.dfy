/**
 * The star schema as a whole: how the fact table refers to the four
 * dimension tables, and the tables the two steps produce on small logs.
 */
module Pipeline {
  import opened Schema
  import opened Relational
  import opened Calendar
  import opened SongData
  import opened LogData

  /**
   * A fact row's references into the dimension tables: a songs row with its
   * song_id and artist_id, an artists row with its artist_id, a users row
   * with its user_id and level, and the time row of its start_time, with
   * the same year and month.
   */
  predicate RefersToDimensions(events: seq<EventRecord>, catalog: seq<CatalogRecord>, p: SongplayRow) {
    && (exists s :: s in SongsTable(catalog) && s.songId == p.songId && s.artistId == p.artistId)
    && (exists a :: a in ArtistsTable(catalog) && a.artistId == p.artistId)
    && (exists u :: u in UsersTable(events) && u.userId == p.userId && u.level == p.level)
    && (exists t :: t in TimeTable(events) && t.startTime == p.startTime && t.year == p.year && t.month == p.month)
  }

  /** Every songplays row refers to rows of the four dimension tables. */
  lemma SongplaysReferToDimensions(events: seq<EventRecord>, catalog: seq<CatalogRecord>)
    ensures forall p :: p in SongplaysTable(events, catalog) ==> RefersToDimensions(events, catalog, p)
  {
    forall p | p in SongplaysTable(events, catalog) ensures RefersToDimensions(events, catalog, p) {
      RowRefersToDimensions(events, catalog, p);
    }
  }

  lemma RowRefersToDimensions(events: seq<EventRecord>, catalog: seq<CatalogRecord>, p: SongplayRow)
    requires p in SongplaysTable(events, catalog)
    ensures RefersToDimensions(events, catalog, p)
  {
    SongplayProvenance(events, catalog);
    var e, c :| e in events && IsSongPlay(e) && c in catalog && SameTitle(e, c) && p == PlayRow(p.songplayId, e, c);
    CatalogSideRefs(catalog, c, p);
    EventSideRefs(events, e, p);
  }

  lemma CatalogSideRefs(catalog: seq<CatalogRecord>, c: CatalogRecord, p: SongplayRow)
    requires c in catalog && p.songId == c.songId && p.artistId == c.artistId
    ensures exists s :: s in SongsTable(catalog) && s.songId == p.songId && s.artistId == p.artistId
    ensures exists a :: a in ArtistsTable(catalog) && a.artistId == p.artistId
  {
    assert SongColumns(c) in SongsTable(catalog);
    assert ArtistColumns(c) in ArtistsTable(catalog);
  }

  lemma EventSideRefs(events: seq<EventRecord>, e: EventRecord, p: SongplayRow)
    requires e in events && IsSongPlay(e)
    requires p.userId == e.userId && p.level == e.level && p.startTime == StartTime(e.ts)
    requires p.year == DeriveTimeFields(e.ts).year && p.month == DeriveTimeFields(e.ts).month
    ensures exists u :: u in UsersTable(events) && u.userId == p.userId && u.level == p.level
    ensures exists t :: t in TimeTable(events) && t.startTime == p.startTime && t.year == p.year && t.month == p.month
  {
    assert UserColumns(e) in UsersTable(events);
    assert TimeColumns(e.ts) in TimeTable(events);
  }

  /** Midnight UTC on 1 January 2001, in milliseconds since the epoch. */
  const NewYear2001Millis: int := 978_307_200_000

  function CatalogEntry(songId: string, title: string): CatalogRecord {
    CatalogRecord(Val(songId), Val(title), Val("AR1"), Val("Artist One"), Null, Null, Null, 2000, 210.5, [])
  }

  function PlayEvent(page: string, song: string): EventRecord {
    EventRecord(Val(page), Val("42"), Val("Ann"), Val("Lee"), Val("F"), Val("free"),
                NewYear2001Millis, Val(song), Val("9"), Val("NY"), Val("UA"))
  }

  /** The time row of the first instant of 2001: hour 0 of Monday 1 January, ISO week 1. */
  lemma NewYear2001TimeRow()
    ensures TimeColumns(NewYear2001Millis)
         == TimeRow(NewYear2001Millis, Instant(NewYear2001Millis), 0, 1, 1, 1, 2001, 2)
  {
    NewYear2001();
  }

  /** One catalog entry: one songs row holding its song columns. */
  lemma SingleEntrySongs()
    ensures SongsTable([CatalogEntry("S1", "Song A")]) == [SongRow(Val("S1"), Val("Song A"), Val("AR1"), 2000, 210.5)]
  {
    var c := CatalogEntry("S1", "Song A");
    SingleRow(c, (x: CatalogRecord) => true, SongColumns);
    SingleRow(SongColumns(c), (x: SongRow) => true, (x: SongRow) => x);
  }

  /** One play at the first instant of 2001: one time row, in partition (2001, 1). */
  lemma SinglePlayTime()
    ensures TimeTable([PlayEvent("NextSong", "Song A")])
         == [TimeRow(NewYear2001Millis, Instant(NewYear2001Millis), 0, 1, 1, 1, 2001, 2)]
  {
    var e := PlayEvent("NextSong", "Song A");
    SingleRow(e, IsSongPlay, EventTimeColumns);
    SingleRow(TimeColumns(e.ts), (x: TimeRow) => true, (x: TimeRow) => x);
    NewYear2001TimeRow();
  }

  /** A play and the catalog it draws on, with their first-join pairs. */
  lemma PlaysJoinOfOnePlay(e: EventRecord, catalog: seq<CatalogRecord>)
    requires IsSongPlay(e) && NoDuplicates(catalog)
    ensures PlaysJoin([e], catalog) == Matches(e, catalog, SameTitle)
  {
    SingleRow(e, IsSongPlay, (x: EventRecord) => x);
    DedupOfDistinct(catalog);
    InnerJoinSingleLeft(e, catalog, SameTitle);
  }

  /** A single play of a title carried by a single catalog entry yields the one fact row with id 0. */
  lemma OnePlayOneEntry(e: EventRecord, c: CatalogRecord)
    requires IsSongPlay(e) && SameTitle(e, c)
    ensures SongplaysTable([e], [c]) == [PlayRow(0, e, c)]
  {
    OneMatch(e, c);
    SongplaysOfOnePair([e], [c], e, c);
  }

  lemma SongplaysOfOnePair(events: seq<EventRecord>, catalog: seq<CatalogRecord>, e: EventRecord, c: CatalogRecord)
    requires PlaysJoin(events, catalog) == [(e, c)]
    ensures SongplaysTable(events, catalog) == [PlayRow(0, e, c)]
  {
  }

  lemma OneMatch(e: EventRecord, c: CatalogRecord)
    requires IsSongPlay(e) && SameTitle(e, c)
    ensures PlaysJoin([e], [c]) == [(e, c)]
  {
    PlaysJoinOfOnePlay(e, [c]);
    assert [c][1..] == [];
  }

  /** A single play of a title carried by two distinct entries yields two fact rows, ids 0 and 1, in catalog order. */
  lemma OnePlayTwoEntries(e: EventRecord, c1: CatalogRecord, c2: CatalogRecord)
    requires IsSongPlay(e) && SameTitle(e, c1) && SameTitle(e, c2) && c1 != c2
    ensures SongplaysTable([e], [c1, c2]) == [PlayRow(0, e, c1), PlayRow(1, e, c2)]
  {
    TwoMatches(e, c1, c2);
    SongplaysOfTwoPairs([e], [c1, c2], e, c1, c2);
  }

  lemma SongplaysOfTwoPairs(events: seq<EventRecord>, catalog: seq<CatalogRecord>, e: EventRecord, c1: CatalogRecord, c2: CatalogRecord)
    requires PlaysJoin(events, catalog) == [(e, c1), (e, c2)]
    ensures SongplaysTable(events, catalog) == [PlayRow(0, e, c1), PlayRow(1, e, c2)]
  {
  }

  lemma TwoMatches(e: EventRecord, c1: CatalogRecord, c2: CatalogRecord)
    requires IsSongPlay(e) && SameTitle(e, c1) && SameTitle(e, c2) && c1 != c2
    ensures PlaysJoin([e], [c1, c2]) == [(e, c1), (e, c2)]
  {
    PlaysJoinOfOnePlay(e, [c1, c2]);
    assert [c1, c2][1..] == [c2] && [c2][1..] == [];
    assert Matches(e, [c2], SameTitle) == [(e, c2)];
  }

  /**
   * One catalog entry and one play of it: one songplays row, with id 0,
   * carrying the entry's ids, the event's columns, and year 2001, month 1.
   */
  lemma SinglePlay()
    ensures SongplaysTable([PlayEvent("NextSong", "Song A")], [CatalogEntry("S1", "Song A")])
         == [SongplayRow(0, Instant(NewYear2001Millis), Val("42"), Val("free"), Val("S1"), Val("AR1"),
                         Val("9"), Val("NY"), Val("UA"), 2001, 1)]
  {
    OnePlayOneEntry(PlayEvent("NextSong", "Song A"), CatalogEntry("S1", "Song A"));
    NewYear2001();
  }

  /**
   * Two distinct catalog entries share the played title: the one event
   * yields two songplays rows, with ids 0 and 1, one per entry.
   */
  lemma SharedTitleFansOut()
    ensures var plays := SongplaysTable([PlayEvent("NextSong", "Song A")],
                                        [CatalogEntry("S1", "Song A"), CatalogEntry("S2", "Song A")]);
      && |plays| == 2
      && plays[0].songplayId == 0 && plays[0].songId == Val("S1")
      && plays[1].songplayId == 1 && plays[1].songId == Val("S2")
  {
    assert CatalogEntry("S1", "Song A") != CatalogEntry("S2", "Song A") by {
      assert "S1"[1] != "S2"[1];
    }
    OnePlayTwoEntries(PlayEvent("NextSong", "Song A"), CatalogEntry("S1", "Song A"), CatalogEntry("S2", "Song A"));
  }

  /** A log holding only a non-song-play page view yields empty users, time and songplays tables. */
  lemma HomePageOnly(catalog: seq<CatalogRecord>)
    ensures UsersTable([PlayEvent("Home", "Song A")]) == []
    ensures TimeTable([PlayEvent("Home", "Song A")]) == []
    ensures SongplaysTable([PlayEvent("Home", "Song A")], catalog) == []
  {
    var e := PlayEvent("Home", "Song A");
    assert !IsSongPlay(e);
    NonSongPlayIgnored([], 0, e, catalog);
    assert InsertEvent([], 0, e) == [e];
  }
}

/**
 * The records the pipeline reads and the rows of the five tables it
 * writes.  Columns that the JSON input may leave out are nullable.
 */
module Schema {

  /** A column value that may be SQL NULL. */
  datatype Nullable<+T> = Null | Val(value: T)

  type Text = Nullable<string>

  /**
   * One entry of the song catalog: a song and the artist who recorded it.
   * `otherColumns` holds the values of the song file's remaining fields,
   * which no table selects but which drop_duplicates compares.
   */
  datatype CatalogRecord = CatalogRecord(
    songId: Text,
    title: Text,
    artistId: Text,
    artistName: Text,
    artistLocation: Text,
    artistLatitude: Nullable<real>,
    artistLongitude: Nullable<real>,
    year: int,
    duration: real,
    otherColumns: seq<Text>)

  /** One line of the activity log; `ts` is in milliseconds since the Unix epoch. */
  datatype EventRecord = EventRecord(
    page: Text,
    userId: Text,
    firstName: Text,
    lastName: Text,
    gender: Text,
    level: Text,
    ts: int,
    song: Text,
    sessionId: Text,
    location: Text,
    userAgent: Text)

  /** A row of the songs dimension table. */
  datatype SongRow = SongRow(songId: Text, title: Text, artistId: Text, year: int, duration: real)

  /** A row of the artists dimension table. */
  datatype ArtistRow = ArtistRow(
    artistId: Text,
    artistName: Text,
    artistLocation: Text,
    artistLatitude: Nullable<real>,
    artistLongitude: Nullable<real>)

  /** A row of the users dimension table. */
  datatype UserRow = UserRow(userId: Text, firstName: Text, lastName: Text, gender: Text, level: Text)

  /** A point in time, counted in milliseconds from 1970-01-01T00:00:00Z. */
  datatype Instant = Instant(epochMillis: int)

  /** A row of the time dimension table. */
  datatype TimeRow = TimeRow(
    ts: int,
    startTime: Instant,
    hour: int,
    day: int,
    week: int,
    month: int,
    year: int,
    weekday: int)

  /** A row of the songplays fact table. */
  datatype SongplayRow = SongplayRow(
    songplayId: nat,
    startTime: Instant,
    userId: Text,
    level: Text,
    songId: Text,
    artistId: Text,
    sessionId: Text,
    location: Text,
    userAgent: Text,
    year: int,
    month: int)
}

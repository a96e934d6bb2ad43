/** process_song_data: the songs and artists dimension tables, built from the song catalog. */
module SongData {
  import opened Schema
  import opened Relational

  /** select('song_id', 'title', 'artist_id', 'year', 'duration') */
  function SongColumns(c: CatalogRecord): SongRow {
    SongRow(c.songId, c.title, c.artistId, c.year, c.duration)
  }

  /** select('artist_id', 'artist_name', 'artist_location', 'artist_latitude', 'artist_longitude') */
  function ArtistColumns(c: CatalogRecord): ArtistRow {
    ArtistRow(c.artistId, c.artistName, c.artistLocation, c.artistLatitude, c.artistLongitude)
  }

  /**
   * The songs table: the song columns of every catalog entry, each distinct
   * row once.  Rows are unique as whole tuples, not by song id.
   */
  function SongsTable(catalog: seq<CatalogRecord>): (songs: seq<SongRow>)
    ensures NoDuplicates(songs)
    ensures forall s :: s in songs <==>
      exists c :: c in catalog && s == SongRow(c.songId, c.title, c.artistId, c.year, c.duration)
  {
    Dedup(Project(catalog, SongColumns))
  }

  /** The artists table: the artist columns of every catalog entry, each distinct row once. */
  function ArtistsTable(catalog: seq<CatalogRecord>): (artists: seq<ArtistRow>)
    ensures NoDuplicates(artists)
    ensures forall a :: a in artists <==>
      exists c :: c in catalog && a == ArtistRow(c.artistId, c.artistName, c.artistLocation, c.artistLatitude, c.artistLongitude)
  {
    Dedup(Project(catalog, ArtistColumns))
  }

  /** Both song-side tables are already free of duplicates: dropping them again changes nothing. */
  lemma SongTablesDedupStable(catalog: seq<CatalogRecord>)
    ensures Dedup(SongsTable(catalog)) == SongsTable(catalog)
    ensures Dedup(ArtistsTable(catalog)) == ArtistsTable(catalog)
  {
    DedupOfDistinct(SongsTable(catalog));
    DedupOfDistinct(ArtistsTable(catalog));
  }

  /** The songs table is written partitioned by year, then artist_id. */
  function SongPartitionKey(s: SongRow): (int, Text) {
    (s.year, s.artistId)
  }

  /**
   * The songs partitions: each group holds exactly the rows of the table
   * whose year and artist_id are the group's key, as often as they occur.
   */
  function SongsPartitions(songs: seq<SongRow>): (groups: map<(int, Text), seq<SongRow>>)
    ensures forall k, s :: k in groups && s in groups[k] ==> SongPartitionKey(s) == k
    ensures forall s :: s in songs ==> SongPartitionKey(s) in groups && s in groups[SongPartitionKey(s)]
    ensures forall k, s :: k in groups ==>
      multiset(groups[k])[s] == if SongPartitionKey(s) == k then multiset(songs)[s] else 0
  {
    PartitionConsistent(songs, SongPartitionKey);
    PartitionBy(songs, SongPartitionKey)
  }
}

/** The track record shared by every container, and the title and query matching that all
    user-facing lookups use (case-insensitive title equality, case-insensitive substring
    search over title and artist). */
module Songs {
  import opened Text
  import opened Seqs

  datatype Option<T> = None | Some(value: T)

  /** A library entry: the dictionary built when a file is scanned. */
  datatype Song = Song(
    filename: string,
    title: string,
    artist: string,
    fileType: string,
    filePath: string,
    fileSize: int)

  /** `song['title'].lower() == target.lower()` */
  predicate TitleIs(song: Song, target: string)
  {
    Lower(song.title) == Lower(target)
  }

  /** `query.lower() in song['title'].lower() or query.lower() in song['artist'].lower()` */
  predicate MatchesQuery(song: Song, query: string)
  {
    Contains(Lower(song.title), Lower(query)) || Contains(Lower(song.artist), Lower(query))
  }

  /** Index of the first song whose title equals `target` case-insensitively, or `|songs|`
      when there is none: the song every title lookup acts on. */
  function FirstTitleMatch(songs: seq<Song>, target: string): (i: nat)
    ensures i <= |songs|
    ensures forall j :: 0 <= j < i ==> !TitleIs(songs[j], target)
    ensures i < |songs| ==> TitleIs(songs[i], target)
  {
    FirstWhere(songs, TitleFilter(target))
  }

  function TitleFilter(target: string): Song -> bool
  {
    (s: Song) => TitleIs(s, target)
  }

  /** Index of the first song matching `query`, or `|songs|` when there is none. */
  function FirstQueryMatch(songs: seq<Song>, query: string): (i: nat)
    ensures i <= |songs|
    ensures forall j :: 0 <= j < i ==> !MatchesQuery(songs[j], query)
    ensures i < |songs| ==> MatchesQuery(songs[i], query)
  {
    FirstWhere(songs, QueryFilter(query))
  }

  /** The first-match index is pinned down by "no match before `k`, and a match at `k`
      unless `k` is the end". */
  lemma FirstQueryMatchIs(songs: seq<Song>, query: string, k: nat)
    requires k <= |songs|
    requires forall j :: 0 <= j < k ==> !MatchesQuery(songs[j], query)
    requires k < |songs| ==> MatchesQuery(songs[k], query)
    ensures FirstQueryMatch(songs, query) == k
  {
  }

  function QueryFilter(query: string): Song -> bool
  {
    (s: Song) => MatchesQuery(s, query)
  }

  /** Every song matching `query`, in the order given. */
  function SearchMatches(songs: seq<Song>, query: string): (r: seq<Song>)
    ensures IsSubseq(r, songs)
    ensures forall k :: 0 <= k < |r| ==> MatchesQuery(r[k], query)
  {
    FilterIsSubseq(songs, QueryFilter(query));
    Filter(songs, QueryFilter(query))
  }

  /** A search returns exactly the matching songs: it keeps their order, keeps every
      occurrence of a matching song, and keeps nothing else. */
  lemma SearchMatchesExact(songs: seq<Song>, query: string)
    ensures IsSubseq(SearchMatches(songs, query), songs)
    ensures forall k :: 0 <= k < |SearchMatches(songs, query)| ==>
              MatchesQuery(SearchMatches(songs, query)[k], query)
    ensures forall s :: multiset(SearchMatches(songs, query))[s]
              == if MatchesQuery(s, query) then multiset(songs)[s] else 0
  {
    FilterIsSubseq(songs, QueryFilter(query));
    forall s ensures multiset(SearchMatches(songs, query))[s]
                     == if MatchesQuery(s, query) then multiset(songs)[s] else 0 {
      FilterCount(songs, QueryFilter(query), s);
    }
  }

  /** Search is case-insensitive: queries that lower-case alike give identical results. */
  lemma {:induction false} SearchCaseInsensitive(songs: seq<Song>, q1: string, q2: string)
    requires Lower(q1) == Lower(q2)
    ensures SearchMatches(songs, q1) == SearchMatches(songs, q2)
  {
    if songs != [] {
      SearchCaseInsensitive(songs[1..], q1, q2);
    }
  }
}

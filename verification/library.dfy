/** Queries over an already-loaded song library (the `MusicPlaylistManager` of
    Lists_and_Tuples.py): parsing "Artist - Title" file stems, filtering, searching, the
    sorted artist and file-type lists, the per-key reports and the integer statistics.
    The library is the ordered sequence of songs; the artist and file-type sets the source
    fills while loading are exactly the artists and file types of those songs. */
module Library {
  import opened Text
  import opened Seqs
  import opened Songs

  const Separator := " - "
  const UnknownArtist := "Unknown Artist"

  // ---------------------------------------------------------------------------
  // File-name parsing

  lemma OccursAtTail(s: string, q: string, j: int)
    requires s != [] && 0 <= j
    ensures OccursAt(s[1..], q, j) <==> OccursAt(s, q, j + 1)
  {
    if j + |q| <= |s| - 1 {
      assert s[1..][j..j + |q|] == s[j + 1..j + 1 + |q|];
    }
  }

  /** Python's `s.find(q)`: the first index where `q` occurs, or -1. */
  function Find(s: string, q: string): (i: int)
    ensures -1 <= i
    ensures i == -1 <==> !Contains(s, q)
    ensures i >= 0 ==> OccursAt(s, q, i) && forall j :: 0 <= j < i ==> !OccursAt(s, q, j)
  {
    if q <= s then
      assert OccursAt(s, q, 0);
      0
    else if s == [] then -1
    else
      var r := Find(s[1..], q);
      FindTail(s, q, r);
      if r < 0 then -1 else r + 1
  }

  /** The step of `Find` past a first character where `q` does not start: what holds of
      the search in `s[1..]` holds of `s`, one place further on. */
  lemma FindTail(s: string, q: string, r: int)
    requires s != [] && !(q <= s)
    requires -1 <= r && (r == -1 <==> !Contains(s[1..], q))
    requires r >= 0 ==> OccursAt(s[1..], q, r) && forall j :: 0 <= j < r ==> !OccursAt(s[1..], q, j)
    ensures r == -1 <==> !Contains(s, q)
    ensures r >= 0 ==> OccursAt(s, q, r + 1) && forall j :: 0 <= j < r + 1 ==> !OccursAt(s, q, j)
  {
    assert !OccursAt(s, q, 0);
    forall j | 0 <= j ensures OccursAt(s[1..], q, j) <==> OccursAt(s, q, j + 1) {
      OccursAtTail(s, q, j);
    }
    if Contains(s, q) {
      var j :| OccursAt(s, q, j);
      assert OccursAt(s[1..], q, j - 1);
    }
    if r >= 0 {
      forall j | 0 < j < r + 1 ensures !OccursAt(s, q, j) {
        OccursAtTail(s, q, j - 1);
      }
    }
  }

  /** Python's `s.split(sep, 1)`: the string itself when `sep` does not occur, otherwise
      the text before its first occurrence and the text after it, which joined around `sep`
      give the string back. */
  function SplitOnce(s: string, sep: string): (parts: seq<string>)
    ensures |parts| == 1 || |parts| == 2
    ensures |parts| == 1 <==> !Contains(s, sep)
    ensures |parts| == 1 ==> parts[0] == s
    ensures |parts| == 2 ==> parts[0] + sep + parts[1] == s
                             && forall j :: 0 <= j < |parts[0]| ==> !OccursAt(s, sep, j)
  {
    var i := Find(s, sep);
    if i < 0 then [s]
    else
      assert s == s[..i] + s[i..i + |sep|] + s[i + |sep|..];
      [s[..i], s[i + |sep|..]]
  }

  /** When the separator occurs, the one-split always yields two parts: the source's
      fallback for any other part count can never run. */
  lemma SplitOnceHasTwoParts(s: string, sep: string)
    requires Contains(s, sep)
    ensures |SplitOnce(s, sep)| == 2
  {
  }

  /** The artist and title read from a file stem. */
  function ParseStem(stem: string): (artistTitle: (string, string))
    ensures Contains(stem, Separator) ==> Trimmed(artistTitle.0) && Trimmed(artistTitle.1)
  {
    if Contains(stem, Separator) then
      var parts := SplitOnce(stem, Separator);
      if |parts| == 2 then (Strip(parts[0]), Strip(parts[1]))
      else (UnknownArtist, stem)
    else (UnknownArtist, stem)
  }

  /** The song record built from a scanned file: its stem, suffix, path and size. */
  function ExtractSongInfo(stem: string, suffix: string, path: string, size: int): (song: Song)
    ensures song.filename == stem && song.filePath == path && song.fileSize == size
    ensures song.fileType == Lower(suffix)
    ensures (song.artist, song.title) == ParseStem(stem)
  {
    var (artist, title) := ParseStem(stem);
    Song(stem, title, artist, Lower(suffix), path, size)
  }

  /** A stem with the separator: the artist is the stripped text before its FIRST occurrence
      and the title the stripped text after it. */
  lemma ParseStemSeparated(stem: string)
    requires Contains(stem, Separator)
    ensures exists i ::
              OccursAt(stem, Separator, i) && (forall j :: 0 <= j < i ==> !OccursAt(stem, Separator, j))
              && ParseStem(stem) == (Strip(stem[..i]), Strip(stem[i + 3..]))
  {
    var i := Find(stem, Separator);
    assert |Separator| == 3;
    assert SplitOnce(stem, Separator) == [stem[..i], stem[i + 3..]];
    assert ParseStem(stem) == (Strip(stem[..i]), Strip(stem[i + 3..]));
    assert OccursAt(stem, Separator, i) && forall j :: 0 <= j < i ==> !OccursAt(stem, Separator, j);
  }

  /** A stem without the separator is all title, by an unknown artist. */
  lemma ParseStemUnseparated(stem: string)
    requires !Contains(stem, Separator)
    ensures ParseStem(stem) == (UnknownArtist, stem)
  {
  }

  predicate Trimmed(s: string)
  {
    s != [] ==> !IsSpace(s[0]) && !IsSpace(s[|s| - 1])
  }

  /** Naming a file "Artist - Title" and parsing it back gives the artist and title again,
      provided both are free of surrounding whitespace and the artist cannot be mistaken for
      an earlier separator (the separator occurs nowhere in it and it does not end in " -"). */
  lemma ParseStemRoundTrip(artist: string, title: string)
    requires Trimmed(artist) && Trimmed(title)
    requires forall i :: !OccursAt(artist, Separator, i)
    requires !(|artist| >= 2 && artist[|artist| - 2..] == " -")
    ensures ParseStem(artist + Separator + title) == (artist, title)
  {
    var stem := artist + Separator + title;
    var n := |artist|;
    assert Find(stem, Separator) == n by {
      assert stem[n] == ' ' && stem[n + 1] == '-' && stem[n + 2] == ' ';
      FirstSeparatorAfterArtist(artist, stem);
    }
    assert stem[..n] == artist && stem[n + 3..] == title;
    ParseStemAt(stem, artist, title);
  }

  /** Parsing a stem whose first separator follows `artist` and precedes `title`. */
  lemma ParseStemAt(stem: string, artist: string, title: string)
    requires Trimmed(artist) && Trimmed(title)
    requires Find(stem, Separator) == |artist|
    requires stem[..|artist|] == artist && stem[|artist| + 3..] == title
    ensures ParseStem(stem) == (artist, title)
  {
    ParseStemAtIndex(stem, |artist|);
    assert Strip(stem[..|artist|]) == artist by { StripTrimmed(artist); }
    assert Strip(stem[|artist| + 3..]) == title by { StripTrimmed(title); }
  }

  lemma ParseStemAtIndex(stem: string, n: nat)
    requires Find(stem, Separator) == n
    ensures ParseStem(stem) == (Strip(stem[..n]), Strip(stem[n + 3..]))
  {
  }

  /** In a stem that starts with `artist` followed by the separator, that separator is the
      first one. */
  lemma FirstSeparatorAfterArtist(artist: string, stem: string)
    requires forall i :: !OccursAt(artist, Separator, i)
    requires !(|artist| >= 2 && artist[|artist| - 2..] == " -")
    requires |artist| + 3 <= |stem|
    requires stem[|artist|] == ' ' && stem[|artist| + 1] == '-' && stem[|artist| + 2] == ' '
    requires forall x :: 0 <= x < |artist| ==> stem[x] == artist[x]
    ensures Find(stem, Separator) == |artist|
  {
    SeparatorAt(stem, |artist|);
    forall j | 0 <= j < |artist| ensures !OccursAt(stem, Separator, j) {
      NoSeparatorInsideArtist(artist, stem, j);
    }
  }

  lemma NoSeparatorInsideArtist(artist: string, stem: string, j: nat)
    requires forall i :: !OccursAt(artist, Separator, i)
    requires !(|artist| >= 2 && artist[|artist| - 2..] == " -")
    requires |artist| + 2 <= |stem| && stem[|artist|] == ' ' && stem[|artist| + 1] == '-'
    requires forall x :: 0 <= x < |artist| ==> stem[x] == artist[x]
    requires j < |artist|
    ensures !OccursAt(stem, Separator, j)
  {
    var n := |artist|;
    SeparatorAt(stem, j);
    if j + 3 <= n {
      SeparatorAt(artist, j);
      assert stem[j] == artist[j] && stem[j + 1] == artist[j + 1] && stem[j + 2] == artist[j + 2];
    } else if j == n - 2 {
      assert artist[n - 2..] == [artist[j], artist[j + 1]];
    }
  }

  /** The separator occurs at `j` exactly when the three characters there spell it. */
  lemma SeparatorAt(s: string, j: nat)
    ensures OccursAt(s, Separator, j)
        <==> j + 3 <= |s| && s[j] == ' ' && s[j + 1] == '-' && s[j + 2] == ' '
  {
    if j + 3 <= |s| {
      assert s[j..j + 3] == [s[j], s[j + 1], s[j + 2]];
    }
  }

  // ---------------------------------------------------------------------------
  // Filters and search

  function ArtistIs(artist: string): Song -> bool
  {
    (s: Song) => Lower(s.artist) == Lower(artist)
  }

  function FileTypeIs(fileType: string): Song -> bool
  {
    (s: Song) => s.fileType == fileType
  }

  /** `filter_songs_by_artist`: songs whose artist equals `artist` case-insensitively. */
  function FilterByArtist(library: seq<Song>, artist: string): (r: seq<Song>)
    ensures IsSubseq(r, library)
    ensures forall k :: 0 <= k < |r| ==> Lower(r[k].artist) == Lower(artist)
  {
    FilterIsSubseq(library, ArtistIs(artist));
    Filter(library, ArtistIs(artist))
  }

  /** `filter_songs_by_file_type`: songs whose stored file type equals the lower-cased
      argument (the stored type itself is compared as is). */
  function FilterByFileType(library: seq<Song>, fileType: string): (r: seq<Song>)
    ensures IsSubseq(r, library)
    ensures forall k :: 0 <= k < |r| ==> r[k].fileType == Lower(fileType)
  {
    FilterIsSubseq(library, FileTypeIs(Lower(fileType)));
    Filter(library, FileTypeIs(Lower(fileType)))
  }

  /** The artist filter keeps, in library order, exactly the songs by that artist up to case. */
  lemma FilterByArtistExact(library: seq<Song>, artist: string)
    ensures IsSubseq(FilterByArtist(library, artist), library)
    ensures forall s :: s in FilterByArtist(library, artist)
                        <==> s in library && Lower(s.artist) == Lower(artist)
    ensures forall s :: multiset(FilterByArtist(library, artist))[s]
                        == if Lower(s.artist) == Lower(artist) then multiset(library)[s] else 0
  {
    FilterIsSubseq(library, ArtistIs(artist));
    forall s ensures s in FilterByArtist(library, artist)
                     <==> s in library && Lower(s.artist) == Lower(artist) {
      FilterMember(library, ArtistIs(artist), s);
    }
    forall s ensures multiset(FilterByArtist(library, artist))[s]
                     == if Lower(s.artist) == Lower(artist) then multiset(library)[s] else 0 {
      FilterCount(library, ArtistIs(artist), s);
    }
  }

  /** The file-type filter keeps, in library order, exactly the songs whose stored type is
      the lower-cased argument. */
  lemma FilterByFileTypeExact(library: seq<Song>, fileType: string)
    ensures IsSubseq(FilterByFileType(library, fileType), library)
    ensures forall s :: s in FilterByFileType(library, fileType)
                        <==> s in library && s.fileType == Lower(fileType)
    ensures forall s :: multiset(FilterByFileType(library, fileType))[s]
                        == if s.fileType == Lower(fileType) then multiset(library)[s] else 0
  {
    FilterIsSubseq(library, FileTypeIs(Lower(fileType)));
    forall s ensures s in FilterByFileType(library, fileType)
                     <==> s in library && s.fileType == Lower(fileType) {
      FilterMember(library, FileTypeIs(Lower(fileType)), s);
    }
    forall s ensures multiset(FilterByFileType(library, fileType))[s]
                     == if s.fileType == Lower(fileType) then multiset(library)[s] else 0 {
      FilterCount(library, FileTypeIs(Lower(fileType)), s);
    }
  }

  /** Artists that differ only in letter case select the same songs. */
  lemma {:induction false} FilterByArtistCaseInsensitive(library: seq<Song>, a: string, b: string)
    requires Lower(a) == Lower(b)
    ensures FilterByArtist(library, a) == FilterByArtist(library, b)
  {
    if library != [] {
      FilterByArtistCaseInsensitive(library[1..], a, b);
    }
  }

  /** `search_songs`: an accumulation loop over the library. */
  method SearchSongs(library: seq<Song>, query: string) returns (results: seq<Song>)
    ensures results == SearchMatches(library, query)
    ensures forall k :: 0 <= k < |results| ==> MatchesQuery(results[k], query)
  {
    var queryLower := Lower(query);
    results := [];
    for i := 0 to |library|
      invariant results == SearchMatches(library[..i], query)
    {
      var song := library[i];
      FilterSnoc(library, i, QueryFilter(query));
      if Contains(Lower(song.title), queryLower) || Contains(Lower(song.artist), queryLower) {
        results := results + [song];
      }
    }
    assert library[..|library|] == library;
  }

  // ---------------------------------------------------------------------------
  // Sorted distinct lists

  function ArtistColumn(library: seq<Song>): (r: seq<string>)
    ensures |r| == |library| && forall i :: 0 <= i < |r| ==> r[i] == library[i].artist
  {
    seq(|library|, i requires 0 <= i < |library| => library[i].artist)
  }

  function FileTypeColumn(library: seq<Song>): (r: seq<string>)
    ensures |r| == |library| && forall i :: 0 <= i < |r| ==> r[i] == library[i].fileType
  {
    seq(|library|, i requires 0 <= i < |library| => library[i].fileType)
  }

  /** The artist set the source keeps beside the library. */
  function Artists(library: seq<Song>): set<string>
  {
    set s | s in library :: s.artist
  }

  /** The file-type set the source keeps beside the library. */
  function FileTypes(library: seq<Song>): set<string>
  {
    set s | s in library :: s.fileType
  }

  ghost predicate StrictlySorted(r: seq<string>)
  {
    forall i, j :: 0 <= i < j < |r| ==> LexLess(r[i], r[j])
  }

  function InsertSorted(t: seq<string>, x: string): (r: seq<string>)
    requires StrictlySorted(t)
    ensures StrictlySorted(r)
    ensures forall y :: y in r <==> y in t || y == x
  {
    if t == [] then [x]
    else if x == t[0] then t
    else if LexLess(x, t[0]) then
      assert forall j :: 0 < j < |t| ==> LexLess(x, t[j]) by {
        forall j | 0 < j < |t| ensures LexLess(x, t[j]) {
          LexLessTransitive(x, t[0], t[j]);
        }
      }
      [x] + t
    else
      LexLessTotal(x, t[0]);
      var rest := InsertSorted(t[1..], x);
      var r := [t[0]] + rest;
      assert forall j :: 0 <= j < |rest| ==> LexLess(t[0], rest[j]) by {
        forall j | 0 <= j < |rest| ensures LexLess(t[0], rest[j]) {
          assert rest[j] in rest;
        }
      }
      assert forall i, j :: 0 <= i < j < |r| ==> LexLess(r[i], r[j]) by {
        forall i, j | 0 <= i < j < |r| ensures LexLess(r[i], r[j]) {
          if i > 0 {
            assert r[i] == rest[i - 1] && r[j] == rest[j - 1];
          }
        }
      }
      r
  }

  /** Python's `sorted(list(set(xs)))` for strings. */
  function SortedDistinct(xs: seq<string>): (r: seq<string>)
    ensures StrictlySorted(r)
    ensures forall y :: y in r <==> y in xs
  {
    if xs == [] then []
    else
      var init := xs[..|xs| - 1];
      assert xs == init + [xs[|xs| - 1]];
      InsertSorted(SortedDistinct(init), xs[|xs| - 1])
  }

  /** A strictly sorted list is determined by its elements, so the result does not depend
      on the order in which the source's set happens to be listed. */
  lemma {:induction false} StrictlySortedUnique(a: seq<string>, b: seq<string>)
    requires StrictlySorted(a) && StrictlySorted(b)
    requires forall y :: y in a <==> y in b
    ensures a == b
  {
    assert a != [] ==> a[0] in b;
    assert b != [] ==> b[0] in a;
    if a != [] && b != [] {
      if a[0] != b[0] {
        assert b[0] in a;
        assert a[0] in b;
        var i :| 0 <= i < |a| && a[i] == b[0];
        var j :| 0 <= j < |b| && b[j] == a[0];
        assert i > 0 && j > 0;
        LexLessTransitive(a[0], b[0], a[0]);
        LexLessIrreflexive(a[0]);
        assert false;
      }
      forall y ensures y in a[1..] <==> y in b[1..] {
        if y in a[1..] {
          var i :| 0 <= i < |a| - 1 && a[1..][i] == y;
          LexLessIrreflexive(y);
          assert LexLess(a[0], a[i + 1]);
          assert y in b && y != b[0];
          var j :| 0 <= j < |b| && b[j] == y;
          assert b[1..][j - 1] == y;
        }
        if y in b[1..] {
          var j :| 0 <= j < |b| - 1 && b[1..][j] == y;
          LexLessIrreflexive(y);
          assert LexLess(b[0], b[j + 1]);
          assert y in a && y != a[0];
          var i :| 0 <= i < |a| && a[i] == y;
          assert a[1..][i - 1] == y;
        }
      }
      StrictlySortedUnique(a[1..], b[1..]);
      assert a == [a[0]] + a[1..] && b == [b[0]] + b[1..];
    }
  }

  /** A strictly sorted list repeats nothing. */
  lemma StrictlySortedDistinct(r: seq<string>)
    requires StrictlySorted(r)
    ensures forall i, j :: 0 <= i < j < |r| ==> r[i] != r[j]
  {
    forall i, j | 0 <= i < j < |r| ensures r[i] != r[j] {
      LexLessIrreflexive(r[i]);
    }
  }

  /** `get_artists_list`: every artist of the library once, in ascending order. */
  function GetArtistsList(library: seq<Song>): (r: seq<string>)
    ensures StrictlySorted(r)
    ensures forall a :: a in r <==> a in Artists(library)
  {
    var col := ArtistColumn(library);
    assert forall a :: a in col <==> a in Artists(library) by {
      forall a ensures a in col <==> a in Artists(library) {
        if a in col {
          var i :| 0 <= i < |col| && col[i] == a;
          assert library[i] in library;
        }
        if a in Artists(library) {
          var s :| s in library && s.artist == a;
          var i :| 0 <= i < |library| && library[i] == s;
          assert col[i] == a;
        }
      }
    }
    SortedDistinct(col)
  }

  /** `get_file_types_list`: every file type of the library once, in ascending order. */
  function GetFileTypesList(library: seq<Song>): (r: seq<string>)
    ensures StrictlySorted(r)
    ensures forall t :: t in r <==> t in FileTypes(library)
  {
    var col := FileTypeColumn(library);
    assert forall t :: t in col <==> t in FileTypes(library) by {
      forall t ensures t in col <==> t in FileTypes(library) {
        if t in col {
          var i :| 0 <= i < |col| && col[i] == t;
          assert library[i] in library;
        }
        if t in FileTypes(library) {
          var s :| s in library && s.fileType == t;
          var i :| 0 <= i < |library| && library[i] == s;
          assert col[i] == t;
        }
      }
    }
    SortedDistinct(col)
  }

  // ---------------------------------------------------------------------------
  // Reports

  /** `generate_artist_report`: each artist of the library mapped to its filter result. */
  function GenerateArtistReport(library: seq<Song>): (report: map<string, seq<Song>>)
    ensures report.Keys == Artists(library)
    ensures forall a :: a in report ==> IsSubseq(report[a], library)
  {
    map a | a in Artists(library) :: FilterByArtist(library, a)
  }

  /** `generate_file_type_report`: each file type of the library mapped to its filter result. */
  function GenerateFileTypeReport(library: seq<Song>): (report: map<string, seq<Song>>)
    ensures report.Keys == FileTypes(library)
    ensures forall t :: t in report ==> IsSubseq(report[t], library)
  {
    map t | t in FileTypes(library) :: FilterByFileType(library, t)
  }

  /** The artist report has one key per artist; its list for an artist is never empty and
      holds exactly the songs whose artist matches that key up to case, so artists spelled
      with different case share one list. */
  lemma ArtistReportExact(library: seq<Song>, artist: string)
    requires artist in Artists(library)
    ensures GenerateArtistReport(library).Keys == Artists(library)
    ensures GenerateArtistReport(library)[artist] != []
    ensures forall s :: s in GenerateArtistReport(library)[artist]
                        <==> s in library && Lower(s.artist) == Lower(artist)
  {
    FilterByArtistExact(library, artist);
    var s :| s in library && s.artist == artist;
    assert s in GenerateArtistReport(library)[artist];
  }

  lemma ArtistReportCaseVariants(library: seq<Song>, a: string, b: string)
    requires a in Artists(library) && b in Artists(library) && Lower(a) == Lower(b)
    ensures GenerateArtistReport(library)[a] == GenerateArtistReport(library)[b]
  {
    FilterByArtistCaseInsensitive(library, a, b);
  }

  /** Scanned songs carry lower-cased file types. */
  predicate LowerFileTypes(library: seq<Song>)
  {
    forall s :: s in library ==> Lower(s.fileType) == s.fileType
  }

  /** A library of records built by `ExtractSongInfo` has lower-cased file types. */
  lemma ExtractedLowerFileTypes(library: seq<Song>)
    requires forall s :: s in library ==>
               exists stem, suffix, path, size :: s == ExtractSongInfo(stem, suffix, path, size)
    ensures LowerFileTypes(library)
  {
    forall s | s in library ensures Lower(s.fileType) == s.fileType {
      var stem, suffix, path, size :| s == ExtractSongInfo(stem, suffix, path, size);
      LowerIdempotent(suffix);
    }
  }

  /** For a scanned library the file-type report has one key per file type, and its list for
      a type is non-empty and holds exactly the songs of that type. */
  lemma FileTypeReportExact(library: seq<Song>, fileType: string)
    requires LowerFileTypes(library)
    requires fileType in FileTypes(library)
    ensures GenerateFileTypeReport(library).Keys == FileTypes(library)
    ensures GenerateFileTypeReport(library)[fileType] != []
    ensures forall s :: s in GenerateFileTypeReport(library)[fileType]
                        <==> s in library && s.fileType == fileType
  {
    FilterByFileTypeExact(library, fileType);
    var s :| s in library && s.fileType == fileType;
    assert Lower(fileType) == fileType;
    assert s in GenerateFileTypeReport(library)[fileType];
  }

  // ---------------------------------------------------------------------------
  // Statistics

  /** One `key: count` item of a counting dictionary; items keep insertion order. */
  datatype KeyCount = KeyCount(key: string, count: nat)

  function CountOf(c: KeyCount): int { c.count }

  function SizeOf(s: Song): int { s.fileSize }

  /** `counts[k] = counts.get(k, 0) + 1` on an insertion-ordered dictionary. */
  function Bump(counts: seq<KeyCount>, k: string): (r: seq<KeyCount>)
    ensures |counts| <= |r| <= |counts| + 1
    ensures SumOf(r, CountOf) == SumOf(counts, CountOf) + 1
  {
    if counts == [] then [KeyCount(k, 1)]
    else if counts[0].key == k then [KeyCount(k, counts[0].count + 1)] + counts[1..]
    else [counts[0]] + Bump(counts[1..], k)
  }

  /** The counting dictionary after counting `keys` from the front. */
  function CountKeys(keys: seq<string>): (r: seq<KeyCount>)
    ensures |r| <= |keys|
    ensures SumOf(r, CountOf) == |keys|
  {
    if keys == [] then [] else Bump(CountKeys(keys[..|keys| - 1]), keys[|keys| - 1])
  }

  function KeysOf(counts: seq<KeyCount>): (r: seq<string>)
    ensures |r| == |counts| && forall i :: 0 <= i < |r| ==> r[i] == counts[i].key
  {
    seq(|counts|, i requires 0 <= i < |counts| => counts[i].key)
  }

  ghost predicate DistinctKeys(counts: seq<KeyCount>)
  {
    forall i, j :: 0 <= i < j < |counts| ==> counts[i].key != counts[j].key
  }

  /** The counting dictionary is right: one item per distinct key, holding the number of
      occurrences of that key, and the counts add up to the number of keys counted. */
  ghost predicate CountsExactly(counts: seq<KeyCount>, keys: seq<string>)
  {
    && DistinctKeys(counts)
    && (forall i :: 0 <= i < |counts| ==>
          counts[i].count == multiset(keys)[counts[i].key] && counts[i].count > 0)
    && (forall k :: k in keys ==> k in KeysOf(counts))
    && SumOf(counts, CountOf) == |keys|
  }

  /** A key not yet in the dictionary is appended with count 1. */
  lemma {:induction false} BumpAbsent(counts: seq<KeyCount>, k: string)
    requires forall i :: 0 <= i < |counts| ==> counts[i].key != k
    ensures Bump(counts, k) == counts + [KeyCount(k, 1)]
  {
    if counts != [] {
      BumpAbsent(counts[1..], k);
      assert counts == [counts[0]] + counts[1..];
    }
  }

  /** A key already present, first at position `i`, gains one there. */
  lemma {:induction false} BumpPresent(counts: seq<KeyCount>, k: string, i: nat)
    requires i < |counts| && counts[i].key == k
    requires forall j :: 0 <= j < i ==> counts[j].key != k
    ensures Bump(counts, k) == counts[i := KeyCount(k, counts[i].count + 1)]
  {
    if i > 0 {
      assert Bump(counts, k) == [counts[0]] + Bump(counts[1..], k);
      BumpPresent(counts[1..], k, i - 1);
      assert counts[i := KeyCount(k, counts[i].count + 1)]
          == [counts[0]] + counts[1..][i - 1 := KeyCount(k, counts[i].count + 1)];
    } else {
      assert Bump(counts, k) == [KeyCount(k, counts[0].count + 1)] + counts[1..];
    }
  }

  lemma BumpCounts(counts: seq<KeyCount>, keys: seq<string>, k: string)
    requires CountsExactly(counts, keys)
    ensures CountsExactly(Bump(counts, k), keys + [k])
  {
    if forall i :: 0 <= i < |counts| ==> counts[i].key != k {
      BumpAbsent(counts, k);
      BumpNewKey(counts, keys, k);
    } else {
      var i :| 0 <= i < |counts| && counts[i].key == k;
      assert forall j :: 0 <= j < i ==> counts[j].key != k;
      BumpPresent(counts, k, i);
      BumpKnownKey(counts, keys, i);
    }
  }

  lemma BumpNewKey(counts: seq<KeyCount>, keys: seq<string>, k: string)
    requires CountsExactly(counts, keys)
    requires forall i :: 0 <= i < |counts| ==> counts[i].key != k
    ensures CountsExactly(counts + [KeyCount(k, 1)], keys + [k])
  {
    var keys' := keys + [k];
    var r := counts + [KeyCount(k, 1)];
    assert multiset(keys') == multiset(keys) + multiset{k};
    assert k !in keys;
    forall x | x in keys' ensures x in KeysOf(r) {
      if x == k {
        assert KeysOf(r)[|counts|] == k;
      } else {
        assert x in KeysOf(counts);
        var i :| 0 <= i < |counts| && KeysOf(counts)[i] == x;
        assert KeysOf(r)[i] == x;
      }
    }
    forall i | 0 <= i < |r| ensures r[i].count == multiset(keys')[r[i].key] && r[i].count > 0 {
      if i < |counts| {
        assert r[i] == counts[i];
      }
    }
    SumOfConcat(counts, [KeyCount(k, 1)], CountOf);
  }

  lemma BumpKnownKey(counts: seq<KeyCount>, keys: seq<string>, i: nat)
    requires CountsExactly(counts, keys)
    requires i < |counts|
    ensures CountsExactly(counts[i := KeyCount(counts[i].key, counts[i].count + 1)],
                          keys + [counts[i].key])
  {
    var k := counts[i].key;
    var keys' := keys + [k];
    assert multiset(keys') == multiset(keys) + multiset{k};
    var r := counts[i := KeyCount(k, counts[i].count + 1)];
    assert KeysOf(r) == KeysOf(counts);
    SumOfUpdate(counts, i, KeyCount(k, counts[i].count + 1), CountOf);
  }

  lemma {:induction false} CountKeysExact(keys: seq<string>)
    ensures CountsExactly(CountKeys(keys), keys)
  {
    if keys == [] {
    } else {
      var init := keys[..|keys| - 1];
      CountKeysExact(init);
      BumpCounts(CountKeys(init), init, keys[|keys| - 1]);
      assert keys == init + [keys[|keys| - 1]];
    }
  }

  /** Where `k` first occurs in `keys`, or `|keys|` when it does not. */
  function FirstIndex(keys: seq<string>, k: string): (i: nat)
    ensures i <= |keys|
    ensures i < |keys| ==> keys[i] == k
    ensures forall j :: 0 <= j < i ==> keys[j] != k
  {
    if keys == [] then 0 else if keys[0] == k then 0 else 1 + FirstIndex(keys[1..], k)
  }

  /** The items of a count table come in the order their keys were first seen. */
  ghost predicate FirstSeenOrder(counts: seq<KeyCount>, keys: seq<string>)
  {
    forall i, j :: 0 <= i < j < |counts| ==>
      FirstIndex(keys, counts[i].key) < FirstIndex(keys, counts[j].key)
  }

  /** Counting one more key leaves the first occurrence of every key already seen where it
      was, and puts a new key's first occurrence at the end. */
  lemma FirstIndexSnoc(init: seq<string>, k: string, x: string)
    ensures x in init ==> FirstIndex(init + [k], x) == FirstIndex(init, x)
    ensures x !in init && x == k ==> FirstIndex(init + [k], x) == |init|
  {
    var keys := init + [k];
    var f := FirstIndex(init, x);
    if x in init {
      assert f < |init|;
      assert keys[f] == x;
    } else if x == k {
      assert keys[|init|] == x;
    }
  }

  /** Python's dictionaries keep insertion order, so the counting loop lists its keys in the
      order they first occur. */
  lemma {:induction false} CountKeysFirstSeen(keys: seq<string>)
    ensures FirstSeenOrder(CountKeys(keys), keys)
  {
    if keys != [] {
      var init := keys[..|keys| - 1];
      var k := keys[|keys| - 1];
      assert keys == init + [k];
      CountKeysFirstSeen(init);
      CountKeysSeen(init);
      CountKeysExact(init);
      BumpFirstSeen(CountKeys(init), init, k);
    }
  }

  /** Every key of the count table was counted. */
  lemma CountKeysSeen(keys: seq<string>)
    ensures forall i :: 0 <= i < |CountKeys(keys)| ==> CountKeys(keys)[i].key in keys
  {
    var counts := CountKeys(keys);
    CountKeysExact(keys);
    forall i | 0 <= i < |counts| ensures counts[i].key in keys {
      assert multiset(keys)[counts[i].key] > 0;
    }
  }

  /** One counting step keeps the table in first-seen order. */
  lemma BumpFirstSeen(counts: seq<KeyCount>, init: seq<string>, k: string)
    requires FirstSeenOrder(counts, init)
    requires forall i :: 0 <= i < |counts| ==> counts[i].key in init
    requires forall x :: x in init ==> x in KeysOf(counts)
    ensures FirstSeenOrder(Bump(counts, k), init + [k])
  {
    if forall i :: 0 <= i < |counts| ==> counts[i].key != k {
      BumpAbsent(counts, k);
      assert k !in init;
      AppendedFirstSeen(counts, init, k);
    } else {
      var i :| 0 <= i < |counts| && counts[i].key == k;
      assert forall j :: 0 <= j < i ==> counts[j].key != k;
      BumpPresent(counts, k, i);
      KeptFirstSeen(counts, init, k, i, KeyCount(k, counts[i].count + 1));
    }
  }

  /** A new key appended after the keys already seen comes last in first-seen order. */
  lemma AppendedFirstSeen(counts: seq<KeyCount>, init: seq<string>, k: string)
    requires FirstSeenOrder(counts, init)
    requires forall i :: 0 <= i < |counts| ==> counts[i].key in init
    requires k !in init
    ensures FirstSeenOrder(counts + [KeyCount(k, 1)], init + [k])
  {
    var keys := init + [k];
    var r := counts + [KeyCount(k, 1)];
    forall i, j | 0 <= i < j < |r|
      ensures FirstIndex(keys, r[i].key) < FirstIndex(keys, r[j].key)
    {
      FirstIndexSnoc(init, k, r[i].key);
      FirstIndexSnoc(init, k, r[j].key);
      if j < |counts| {
        assert r[i] == counts[i] && r[j] == counts[j];
      } else {
        assert r[i] == counts[i] && r[j].key == k;
      }
    }
  }

  /** Changing one count and seeing a known key again keeps first-seen order. */
  lemma KeptFirstSeen(counts: seq<KeyCount>, init: seq<string>, k: string, i: nat, c: KeyCount)
    requires FirstSeenOrder(counts, init)
    requires forall i :: 0 <= i < |counts| ==> counts[i].key in init
    requires i < |counts| && c.key == counts[i].key
    ensures FirstSeenOrder(counts[i := c], init + [k])
  {
    var keys := init + [k];
    var r := counts[i := c];
    forall a, b | 0 <= a < b < |r|
      ensures FirstIndex(keys, r[a].key) < FirstIndex(keys, r[b].key)
    {
      assert r[a].key == counts[a].key && r[b].key == counts[b].key;
      FirstIndexSnoc(init, k, r[a].key);
      FirstIndexSnoc(init, k, r[b].key);
    }
  }

  lemma {:induction false} DistinctKeysOnce(counts: seq<KeyCount>, c: KeyCount)
    requires DistinctKeys(counts)
    ensures multiset(counts)[c] <= 1
  {
    if counts != [] {
      assert DistinctKeys(counts[1..]);
      DistinctKeysOnce(counts[1..], c);
      assert counts == [counts[0]] + counts[1..];
      if counts[0] == c {
        assert c !in counts[1..];
      }
    }
  }

  /** Reordering the items of a counting dictionary keeps it exact. */
  lemma PermutedCountsExact(counts: seq<KeyCount>, r: seq<KeyCount>, keys: seq<string>)
    requires CountsExactly(counts, keys)
    requires multiset(r) == multiset(counts)
    requires SumOf(r, CountOf) == SumOf(counts, CountOf)
    ensures CountsExactly(r, keys)
  {
    forall c ensures c in r <==> c in counts {
      assert c in r <==> multiset(r)[c] > 0;
      assert c in counts <==> multiset(counts)[c] > 0;
    }
    DistinctKeysPermuted(counts, r);
    forall i | 0 <= i < |r|
      ensures r[i].count == multiset(keys)[r[i].key] && r[i].count > 0
    {
      assert r[i] in counts;
    }
    forall k | k in keys ensures k in KeysOf(r) {
      var i :| 0 <= i < |counts| && KeysOf(counts)[i] == k;
      assert counts[i] in r;
      var j :| 0 <= j < |r| && r[j] == counts[i];
      assert KeysOf(r)[j] == k;
    }
  }

  lemma DistinctKeysPermuted(counts: seq<KeyCount>, r: seq<KeyCount>)
    requires DistinctKeys(counts)
    requires multiset(r) == multiset(counts)
    ensures DistinctKeys(r)
  {
    forall i, j | 0 <= i < j < |r| ensures r[i].key != r[j].key {
      assert r[i] in multiset(counts) && r[j] in multiset(counts);
      if r[i] == r[j] {
        RepeatedElement(r, i, j);
        DistinctKeysOnce(counts, r[i]);
      } else {
        var i' :| 0 <= i' < |counts| && counts[i'] == r[i];
        var j' :| 0 <= j' < |counts| && counts[j'] == r[j];
        assert i' != j';
      }
    }
  }

  lemma RepeatedElement<T>(r: seq<T>, i: nat, j: nat)
    requires i < j < |r| && r[i] == r[j]
    ensures multiset(r)[r[i]] >= 2
  {
    assert r[..j + 1] == r[..i] + [r[i]] + r[i + 1..j] + [r[j]];
    assert r == r[..j + 1] + r[j + 1..];
  }

  /** The integer part of `get_library_statistics`: the song count, the total size in
      bytes, the number of distinct artists, the per-artist counts ordered by descending
      count (ties in first-seen order) and the per-file-type counts in first-seen order. */
  datatype LibraryStats = LibraryStats(
    totalSongs: nat,
    totalSizeBytes: int,
    uniqueArtists: nat,
    artistCounts: seq<KeyCount>,
    fileTypeCounts: seq<KeyCount>)

  /** The statistics as one expression over the library. */
  function Statistics(library: seq<Song>): (stats: LibraryStats)
    ensures stats.totalSongs == |library|
    ensures SumOf(stats.artistCounts, CountOf) == |library|
    ensures SumOf(stats.fileTypeCounts, CountOf) == |library|
  {
    SortDescSum(CountKeys(ArtistColumn(library)), CountOf, CountOf);
    LibraryStats(|library|, SumOf(library, SizeOf), |Artists(library)|,
                 SortDesc(CountKeys(ArtistColumn(library)), CountOf),
                 CountKeys(FileTypeColumn(library)))
  }

  /** One counting pass of `get_library_statistics`: `counts[key] = counts.get(key, 0) + 1`
      for each key in turn, the table keeping first-insertion order. */
  method CountPass(keys: seq<string>) returns (counts: seq<KeyCount>)
    ensures counts == CountKeys(keys)
  {
    counts := [];
    for i := 0 to |keys|
      invariant counts == CountKeys(keys[..i])
    {
      assert keys[..i + 1][..i] == keys[..i];
      counts := Bump(counts, keys[i]);
    }
    assert keys[..|keys|] == keys;
  }

  /** `get_library_statistics`: one summing pass and two counting passes over the library,
      then a stable sort of the artist counts. */
  method LibraryStatistics(library: seq<Song>) returns (stats: LibraryStats)
    ensures stats == Statistics(library)
  {
    var totalSize := 0;
    for i := 0 to |library|
      invariant totalSize == SumOf(library[..i], SizeOf)
    {
      assert library[..i + 1] == library[..i] + [library[i]];
      SumOfConcat(library[..i], [library[i]], SizeOf);
      totalSize := totalSize + library[i].fileSize;
    }
    assert library[..|library|] == library;

    var artistCounts := CountPass(ArtistColumn(library));
    var fileTypeCounts := CountPass(FileTypeColumn(library));
    stats := LibraryStats(|library|, totalSize, |Artists(library)|,
                          SortDesc(artistCounts, CountOf), fileTypeCounts);
  }

  /** The statistics are right: both count tables hold one item per distinct key with its
      number of occurrences, the artist table is ordered by descending count and ties keep
      their first-seen order, and the distinct-artist figure is the size of the artist
      table. */
  lemma StatisticsExact(library: seq<Song>)
    ensures CountsExactly(Statistics(library).artistCounts, ArtistColumn(library))
    ensures SortedDesc(Statistics(library).artistCounts, CountOf)
    ensures forall c :: WithKey(Statistics(library).artistCounts, CountOf, c)
                     == WithKey(CountKeys(ArtistColumn(library)), CountOf, c)
    ensures CountsExactly(Statistics(library).fileTypeCounts, FileTypeColumn(library))
    ensures SumOf(Statistics(library).artistCounts, CountOf) == Statistics(library).totalSongs
    ensures SumOf(Statistics(library).fileTypeCounts, CountOf) == Statistics(library).totalSongs
    ensures Statistics(library).uniqueArtists == |Statistics(library).artistCounts|
  {
    var col := ArtistColumn(library);
    var counts := CountKeys(col);
    var sorted := SortDesc(counts, CountOf);
    CountKeysExact(col);
    CountKeysExact(FileTypeColumn(library));
    SortDescSum(counts, CountOf, CountOf);
    PermutedCountsExact(counts, sorted, col);
    forall c ensures WithKey(sorted, CountOf, c) == WithKey(counts, CountOf, c) {
      SortDescStable(counts, CountOf, c);
    }
    ArtistTableKeys(library, sorted);
    DistinctCardinality(KeysOf(sorted));
  }

  /** An exact artist count table has the library's artists as its keys. */
  lemma ArtistTableKeys(library: seq<Song>, table: seq<KeyCount>)
    requires CountsExactly(table, ArtistColumn(library))
    ensures (set k | k in KeysOf(table)) == Artists(library)
  {
    var col := ArtistColumn(library);
    forall a ensures a in KeysOf(table) <==> a in Artists(library) {
      if a in KeysOf(table) {
        var i :| 0 <= i < |table| && KeysOf(table)[i] == a;
        assert multiset(col)[a] > 0;
        assert a in col;
        var j :| 0 <= j < |col| && col[j] == a;
        assert library[j] in library;
      }
      if a in Artists(library) {
        var s :| s in library && s.artist == a;
        var j :| 0 <= j < |library| && library[j] == s;
        assert col[j] == a;
      }
    }
  }

  /** A sequence without repeats has as many elements as its set. */
  lemma {:induction false} DistinctCardinality(xs: seq<string>)
    requires forall i, j :: 0 <= i < j < |xs| ==> xs[i] != xs[j]
    ensures |set x | x in xs| == |xs|
  {
    if xs != [] {
      var rest := xs[1..];
      DistinctCardinality(rest);
      assert (set x | x in xs) == (set x | x in rest) + {xs[0]};
      assert xs[0] !in rest;
    }
  }
}

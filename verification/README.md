# Music streamer core in Dafny

This project models the core of a small music player written in Python. The core has five
parts:

- the **song library** (`MusicPlaylistManager`): it parses "Artist - Title" file names, then
  filters, searches, lists, reports on and counts the loaded songs;
- the **doubly linked playlist** (`LinkedListPlaylist`): a play cursor, insertion before and
  after a title, removal, navigation, search and a pair-swapping shuffle;
- the **catalog of named playlists** (`PlaylistManager`): it holds the playlists by name and
  tracks the current one;
- the **queues**: a first-in-first-out play-next queue, a priority party queue with upvotes,
  the listening history, and the player state that ties them together;
- the **recursive divide-and-conquer shuffle**, with its random merge.

Modules, one per file:

| file | module | models |
|---|---|---|
| `seqs.dfy` | `Seqs` | filters and subsequences, a stable descending sort by integer key (Python's `sort(key=…, reverse=True)`), sums, prefix slices |
| `text.dfy` | `Text` | lower-casing, whitespace stripping, substring search and string ordering |
| `songs.dfy` | `Songs` | the song record and the case-insensitive title and query matches shared by all parts |
| `library.dfy` | `Library` | `Lists_and_Tuples.py` |
| `links.dfy` | `Links` | the pointer surgery of the linked list, as lemmas about node arenas |
| `playlist.dfy` | `LinkedPlaylist` | `LinkedListPlaylist` and `load_playlist_from_library` |
| `manager.dfy` | `Catalog` | `PlaylistManager` |
| `queues.dfy` | `Queues` | `stacks_queues_music.py` |
| `recursive_shuffle.dfy` | `RecursiveShuffle` | `recursive_playlist_shuffle.py` |

How the source maps onto Dafny:

- **Classes and mutable state.** Classes whose fields the source updates in place stay
  classes: the playlist, the catalog, the queues and the player. The Python lists they mutate
  become `seq` fields that the methods reassign.
- **Linked nodes.** The playlist's nodes live in an arena of three sequences: the song, the
  next link and the previous link per node, with `-1` for "no node". A ghost `order` lists the
  reachable nodes from head to tail. `Contents()` is the song sequence a listener sees, and
  every playlist method is proved against it.
- **Randomness.** It is an explicit argument:
  - `shuffle_playlist` receives its `2 * size` index pairs;
  - the recursive shuffle receives a stream of draws, and `Heads(d)` stands for
    `random.random() < 0.5`.
- **Audio playback.** Whether the back end could load and start a file is the `playbackOk`
  argument.

## Model

| member | source | states |
|---|---|---|
| `Text.LowerIdempotent` | src/Lists_and_Tuples.py:72 | lower-casing twice is lower-casing once |
| `Text.StripStart` | src/Lists_and_Tuples.py:47-48 | the result is a suffix that starts with a non-space, and every dropped character is whitespace |
| `Text.StripEnd` | src/Lists_and_Tuples.py:47-48 | the result is a prefix that ends with a non-space, and every dropped character is whitespace |
| `Text.Strip` | src/Lists_and_Tuples.py:47-48 | `str.strip()` leaves no whitespace at either end of a non-empty result (`Text.StripTrimmed` adds that a trimmed string is left alone) |
| `Text.StripTrimmed` | src/Lists_and_Tuples.py:47-48 | `strip` leaves a string with no whitespace at either end unchanged |
| `Text.Contains` | src/Lists_and_Tuples.py:83-84 | Python's `in` on strings is true exactly when the query occurs at some index |
| `Text.LexLessIrreflexive` | src/Lists_and_Tuples.py:90 | the order `sorted` uses on strings is irreflexive |
| `Text.LexLessTransitive` | src/Lists_and_Tuples.py:90 | that order is transitive |
| `Text.LexLessTotal` | src/Lists_and_Tuples.py:90 | any two different strings are ordered one way or the other |
| `Seqs.Filter` | src/Lists_and_Tuples.py:72 | a list comprehension with a condition keeps only elements that satisfy it, and is never longer than its input |
| `Seqs.FilterIsSubseq` | src/Lists_and_Tuples.py:72 | the comprehension keeps the input's order |
| `Seqs.FilterCount` | src/Lists_and_Tuples.py:72 | every element that satisfies the condition keeps all of its copies, and every other element keeps none |
| `Seqs.FilterConcat` | src/Lists_and_Tuples.py:82-85 | filtering a concatenation filters each part |
| `Seqs.FilterMember` | src/Lists_and_Tuples.py:72 | an element is in the result if and only if it is in the input and satisfies the condition |
| `Seqs.FirstWhere` | src/linked_list_playlist.py:142-144 | a front-to-back scan stops at the first element that satisfies the test, or runs off the end |
| `Seqs.SumOfConcat` | src/Lists_and_Tuples.py:113 | a sum over a concatenation is the sum of the parts |
| `Seqs.SumOfUpdate` | src/stacks_queues_music.py:52 | replacing one element changes the sum by the difference |
| `Seqs.InsertDesc` | src/stacks_queues_music.py:31-32 | inserting into a descending sequence adds exactly that element |
| `Seqs.InsertDescSorted` | src/stacks_queues_music.py:31-32 | inserting into a descending sequence keeps it descending |
| `Seqs.SortDesc` | src/stacks_queues_music.py:32 | the descending sort is a permutation of its input and is sorted |
| `Seqs.SortDescStable` | src/stacks_queues_music.py:32 | the sort is stable: for each key, the elements carrying it keep their relative order |
| `Seqs.InsertDescStable` | src/stacks_queues_music.py:31-32 | inserting after every element with a key at least as large puts the newcomer last in its key class and changes no class's order |
| `Seqs.SortDescSnoc` | src/stacks_queues_music.py:31-32 | appending to a sorted queue and re-sorting equals inserting after all elements whose key is at least as large |
| `Seqs.SortDescOfSorted` | src/stacks_queues_music.py:32 | sorting an already sorted sequence changes nothing |
| `Seqs.SortDescSum` | src/Lists_and_Tuples.py:133 | sorting keeps every sum over the elements |
| `Seqs.Take` | src/linked_list_playlist.py:423 | `s[:m]` is a prefix of `s`: it has `m` elements, all of them when `m` is at least the length, and all but the last `-m` when `m` is negative |
| `Songs.FirstTitleMatch` | src/linked_list_playlist.py:142-144 | it is the index of the first song whose title equals the target case-insensitively, or the length when there is none |
| `Songs.FirstQueryMatch` | src/linked_list_playlist.py:249-254 | it is the index of the first song whose title or artist contains the query case-insensitively, or the length when there is none |
| `Songs.SearchMatches` | src/Lists_and_Tuples.py:78-86 | the search keeps library order and returns only songs whose title or artist contains the query case-insensitively (`Songs.SearchMatchesExact` adds that every match is returned) |
| `Songs.SearchMatchesExact` | src/Lists_and_Tuples.py:78-86 | the search result keeps library order, holds only matching songs, and holds every matching song as often as the library does |
| `Songs.SearchCaseInsensitive` | src/Lists_and_Tuples.py:80 | two queries that differ only in letter case find the same songs |
| `Library.Find` | src/Lists_and_Tuples.py:44-45 | it is the first index where the separator occurs, or -1 exactly when `' - ' in filename` is false |
| `Library.SplitOnce` | src/Lists_and_Tuples.py:44-46 | `split(sep, 1)` gives one part, the whole string, exactly when `sep` does not occur; otherwise two parts split at the first occurrence, which joined with `sep` give the string back |
| `Library.SplitOnceHasTwoParts` | src/Lists_and_Tuples.py:44-46 | when the separator is present, `split(' - ', 1)` always gives two parts, so the else-branch at lines 49-51 cannot be reached |
| `Library.ExtractSongInfo` | src/Lists_and_Tuples.py:38-64 | the record keeps the stem, path and size, lower-cases the suffix into the file type, and takes artist and title from the stem |
| `Library.ParseStem` | src/Lists_and_Tuples.py:43-55 | with a separator, artist and title come out with no surrounding whitespace (`Library.ParseStemSeparated` and `Library.ParseStemUnseparated` give both cases in full) |
| `Library.ExtractedLowerFileTypes` | src/Lists_and_Tuples.py:41 | every record `_extract_song_info` builds has a lower-case file type, which `Library.FileTypeReportExact` relies on |
| `Library.ParseStemSeparated` | src/Lists_and_Tuples.py:44-48 | with a separator, the artist is the stripped text before its first occurrence and the title is the stripped text after it |
| `Library.ParseStemUnseparated` | src/Lists_and_Tuples.py:52-55 | without a separator, the artist is "Unknown Artist" and the title is the whole stem |
| `Library.ParseStemRoundTrip` | src/Lists_and_Tuples.py:43-48 | joining a trimmed artist without a separator and a trimmed title with " - " parses back to the same pair |
| `Library.FilterByArtist` | src/Lists_and_Tuples.py:70-72 | the result keeps library order and holds only songs whose artist equals the argument case-insensitively (`Library.FilterByArtistExact` adds that every such song is kept) |
| `Library.FilterByFileType` | src/Lists_and_Tuples.py:74-76 | the result keeps library order and holds only songs whose file type equals the lower-cased argument (`Library.FilterByFileTypeExact` adds that every such song is kept) |
| `Library.FilterByArtistExact` | src/Lists_and_Tuples.py:70-72 | the result keeps library order and holds exactly the songs whose artist equals the argument case-insensitively, each as often as in the library |
| `Library.FilterByFileTypeExact` | src/Lists_and_Tuples.py:74-76 | the result keeps library order and holds exactly the songs whose file type equals the lower-cased argument, each as often as in the library |
| `Library.FilterByArtistCaseInsensitive` | src/Lists_and_Tuples.py:72 | two artist names that differ only in case select the same songs |
| `Library.SearchSongs` | src/Lists_and_Tuples.py:78-86 | the loop returns exactly the matches of the query, in library order |
| `Library.InsertSorted` | src/Lists_and_Tuples.py:90 | inserting into a strictly sorted list keeps it strictly sorted and adds exactly the new element |
| `Library.SortedDistinct` | src/Lists_and_Tuples.py:90 | `sorted(list(set))` is strictly sorted and has the same members as its input |
| `Library.StrictlySortedUnique` | src/Lists_and_Tuples.py:90 | two strictly sorted lists with the same members are equal, so the sorted list is determined by the set |
| `Library.StrictlySortedDistinct` | src/Lists_and_Tuples.py:88-94 | the sorted artist and file-type lists have no duplicates |
| `Library.GetArtistsList` | src/Lists_and_Tuples.py:88-90 | the artist list is strictly sorted and holds exactly the library's artists |
| `Library.GetFileTypesList` | src/Lists_and_Tuples.py:92-94 | the file-type list is strictly sorted and holds exactly the library's file types |
| `Library.GenerateArtistReport` | src/Lists_and_Tuples.py:96-101 | the report has one key per artist, and each entry keeps library order (`Library.ArtistReportExact` gives the entries in full) |
| `Library.GenerateFileTypeReport` | src/Lists_and_Tuples.py:103-108 | the report has one key per file type, and each entry keeps library order (`Library.FileTypeReportExact` gives the entries in full) |
| `Library.ArtistReportExact` | src/Lists_and_Tuples.py:96-101 | the report's keys are exactly the artists, and each entry is non-empty and holds the songs of that artist |
| `Library.ArtistReportCaseVariants` | src/Lists_and_Tuples.py:96-101 | two artists that differ only in case get the same song list, because the filter ignores case |
| `Library.FileTypeReportExact` | src/Lists_and_Tuples.py:103-108 | the report's keys are exactly the file types, and each entry is non-empty and holds the songs of that file type |
| `Library.Bump` | src/Lists_and_Tuples.py:119 | one counting step grows the table by at most one item and raises the total count by one (`Library.BumpAbsent` and `Library.BumpPresent` give the two cases in full) |
| `Library.BumpAbsent` | src/Lists_and_Tuples.py:119 | counting a key not yet in the table appends it with count 1 |
| `Library.BumpPresent` | src/Lists_and_Tuples.py:119 | counting a key already in the table adds one to its count and changes nothing else |
| `Library.BumpCounts` | src/Lists_and_Tuples.py:116-119 | one counting step keeps the table exact for the keys seen so far |
| `Library.CountKeys` | src/Lists_and_Tuples.py:116-125 | the table has at most one item per key seen and its counts add up to the number of keys (`Library.CountKeysExact` gives each count) |
| `Library.CountPass` | src/Lists_and_Tuples.py:116-125 | each counting loop of `get_library_statistics` computes the count table of its column |
| `Library.CountKeysExact` | src/Lists_and_Tuples.py:116-125 | the count table holds each distinct key once, with its number of occurrences |
| `Library.CountKeysFirstSeen` | src/Lists_and_Tuples.py:116-125 | the count table lists its keys in the order they first occur among the counted keys, as a Python dictionary keeps insertion order |
| `Library.BumpFirstSeen` | src/Lists_and_Tuples.py:119 | one `get(k, 0) + 1` step keeps the table in first-seen order |
| `Library.PermutedCountsExact` | src/Lists_and_Tuples.py:133 | reordering an exact count table leaves it exact |
| `Library.DistinctKeysPermuted` | src/Lists_and_Tuples.py:133 | reordering a table with distinct keys keeps the keys distinct |
| `Library.Statistics` | src/Lists_and_Tuples.py:110-135 | the total is the number of songs and both count tables add up to it (`Library.StatisticsExact` gives the tables in full) |
| `Library.LibraryStatistics` | src/Lists_and_Tuples.py:110-135 | the three loops compute the total count, the total size, the artist and file-type tables and the number of artists |
| `Library.StatisticsExact` | src/Lists_and_Tuples.py:110-135 | both tables count each key exactly and sum to the total; the artist table is in descending count order, and within one count it keeps the counting table's order, which `Library.CountKeysFirstSeen` shows is the order artists are first seen; the number of artists is the size of the artist table |
| `Library.ArtistTableKeys` | src/Lists_and_Tuples.py:116-132 | the keys of an exact artist count table are exactly the library's artists, so their number is `len(self.artists)` |
| `Library.DistinctCardinality` | src/Lists_and_Tuples.py:132 | a list without duplicates has as many elements as its set |
| `Links.AppendNode` | src/linked_list_playlist.py:40-53 | linking a new node after the tail keeps a well-formed chain, and the songs become the old songs plus the new one |
| `Links.PrependNode` | src/linked_list_playlist.py:58-71 | linking a new node before the head keeps a well-formed chain, and the new song comes first |
| `Links.InsertNodeAfter` | src/linked_list_playlist.py:83-96 | the four pointer updates after node `i` keep the chain well formed, and the new song lands at position `i + 1` |
| `Links.InsertNodeBefore` | src/linked_list_playlist.py:114-127 | the four pointer updates before node `i` keep the chain well formed, and the new song lands at position `i` |
| `Links.UnlinkNode` | src/linked_list_playlist.py:154-167 | bypassing node `i` in both directions keeps the chain well formed and removes exactly position `i` |
| `Links.SongsAtInsert` | src/linked_list_playlist.py:83 | a fresh node at a position adds its song at that position |
| `Links.SongsAtRemove` | src/linked_list_playlist.py:154-165 | unlinking a node removes its song from the view |
| `LinkedPlaylist.CursorAfterInsert` | src/linked_list_playlist.py:83-96 | an insertion leaves `current_node` on the same node, one place further on when the insertion is at or before it |
| `LinkedPlaylist.CursorAfterRemove` | src/linked_list_playlist.py:145-152 | removing the current node moves the cursor to the next node, else to the previous one, else to none; removing any other node keeps it |
| `LinkedPlaylist.Swap` | src/linked_list_playlist.py:300-301 | one swap exchanges exactly two positions and is a permutation |
| `LinkedPlaylist.ApplySwaps` | src/linked_list_playlist.py:297-301 | any run of swaps is a permutation of the playlist |
| `LinkedPlaylist.SwapPairs` | src/linked_list_playlist.py:297-301 | the swap loop performs the given swaps in order |
| `LinkedPlaylist.LinkedListPlaylist.constructor` | src/linked_list_playlist.py:24-28 | a new playlist is empty and well formed |
| `LinkedPlaylist.LinkedListPlaylist.IsEmpty` | src/linked_list_playlist.py:30-32 | the playlist is empty exactly when it holds no songs |
| `LinkedPlaylist.LinkedListPlaylist.GetSize` | src/linked_list_playlist.py:34-36 | `size` is the number of songs |
| `LinkedPlaylist.LinkedListPlaylist.GetCurrentSong` | src/linked_list_playlist.py:196-202 | it is None exactly for an empty playlist, otherwise the song at the cursor |
| `LinkedPlaylist.LinkedListPlaylist.AddSongAtEnd` | src/linked_list_playlist.py:38-54 | the song is appended; the first song becomes current; otherwise the cursor stays |
| `LinkedPlaylist.LinkedListPlaylist.AddSongAtBeginning` | src/linked_list_playlist.py:56-72 | the song is prepended; the first song becomes current; otherwise the cursor stays on its song |
| `LinkedPlaylist.LinkedListPlaylist.AddSongsAtEnd` | src/linked_list_playlist.py:425-426 | repeated `add_song_at_end` appends the songs in order |
| `LinkedPlaylist.LinkedListPlaylist.FindTitle` | src/linked_list_playlist.py:142-144 | the scan returns the node at the first case-insensitive title match, or none |
| `LinkedPlaylist.LinkedListPlaylist.InsertSongAfter` | src/linked_list_playlist.py:74-103 | it succeeds exactly when some title matches; then the song is inserted right after the first match and the cursor stays on its song; otherwise nothing changes |
| `LinkedPlaylist.LinkedListPlaylist.LinkAfter` | src/linked_list_playlist.py:83-96 | linking after position `k` inserts the song at `k + 1`, and the tail moves exactly when `k` was last |
| `LinkedPlaylist.LinkedListPlaylist.InsertSongBefore` | src/linked_list_playlist.py:105-134 | it succeeds exactly when some title matches; then the song is inserted right before the first match and the cursor stays on its song; otherwise nothing changes |
| `LinkedPlaylist.LinkedListPlaylist.LinkBefore` | src/linked_list_playlist.py:114-127 | linking before position `k` inserts the song at `k`, and the head moves exactly when `k` was first |
| `LinkedPlaylist.LinkedListPlaylist.RemoveSong` | src/linked_list_playlist.py:136-174 | it succeeds exactly when some title matches; then the first match is removed and the cursor is relocated as the source does; otherwise nothing changes |
| `LinkedPlaylist.LinkedListPlaylist.Unlink` | src/linked_list_playlist.py:154-167 | unlinking position `k` removes exactly that song |
| `LinkedPlaylist.LinkedListPlaylist.NextSong` | src/linked_list_playlist.py:176-184 | the cursor advances and returns the next song when there is one; otherwise it returns None and stays |
| `LinkedPlaylist.LinkedListPlaylist.PreviousSong` | src/linked_list_playlist.py:186-194 | the cursor steps back and returns the previous song when there is one; otherwise it returns None and stays |
| `LinkedPlaylist.LinkedListPlaylist.GoToFirstSong` | src/linked_list_playlist.py:204-212 | on a non-empty playlist the cursor moves to the head and returns the first song; an empty one gives None |
| `LinkedPlaylist.LinkedListPlaylist.GoToLastSong` | src/linked_list_playlist.py:214-222 | on a non-empty playlist the cursor moves to the tail and returns the last song; an empty one gives None |
| `LinkedPlaylist.LinkedListPlaylist.ReversePlaylist` | src/linked_list_playlist.py:258-261 | a playlist of at most one song is its own reversal, and the early return leaves it as it is |
| `LinkedPlaylist.LinkedListPlaylist.SearchSong` | src/linked_list_playlist.py:244-256 | it returns the node of the first song whose title or artist contains the query case-insensitively, or none |
| `LinkedPlaylist.LinkedListPlaylist.CollectSongs` | src/linked_list_playlist.py:290-295 | the walk from head to tail collects exactly the playlist's songs |
| `LinkedPlaylist.LinkedListPlaylist.Rebuild` | src/linked_list_playlist.py:305-314 | clearing the list and appending the songs gives exactly those songs, with the cursor on the first |
| `LinkedPlaylist.LinkedListPlaylist.ShufflePlaylist` | src/linked_list_playlist.py:285-315 | with two or more songs the playlist becomes the swaps applied to its songs, which is a permutation of them, with the cursor on the first song; with fewer nothing changes |
| `LinkedPlaylist.LoadPlaylistFromLibrary` | src/linked_list_playlist.py:414-430 | the new playlist holds `library[:max_songs]` in library order, with the first song current when there is one |
| `Catalog.PlaylistManager.constructor` | src/linked_list_playlist.py:320-322 | there are no playlists and no current name |
| `Catalog.PlaylistManager.CreatePlaylist` | src/linked_list_playlist.py:324-338 | it succeeds exactly for a new name; then a fresh empty playlist is filed under it and made current, and every other entry is kept; a taken name changes nothing |
| `Catalog.PlaylistManager.DeletePlaylist` | src/linked_list_playlist.py:340-351 | it succeeds exactly for a known name; then that entry alone goes, and the current name is cleared if it was this one; otherwise nothing changes |
| `Catalog.PlaylistManager.SwitchPlaylist` | src/linked_list_playlist.py:353-361 | it succeeds exactly for a known name, which becomes current; otherwise the current name stays |
| `Catalog.PlaylistManager.GetCurrentPlaylist` | src/linked_list_playlist.py:363-367 | it is None when there is no current name or the name is the empty string; otherwise it is the playlist filed under the name |
| `Catalog.PlaylistManager.AddSongToCurrentPlaylist` | src/linked_list_playlist.py:383-391 | it succeeds exactly when there is a current playlist; then that playlist gains the song at its end, an empty one with the song current and a non-empty one with its cursor unmoved, and every other playlist is untouched |
| `Catalog.PlaylistManager.CreatePlaylistFromLibrary` | src/linked_list_playlist.py:393-412 | a taken name changes nothing; otherwise a new playlist is filed and made current holding `library[:max_songs]`, with the first song current when there is one; the result is true exactly when the name was new and the library non-empty |
| `Queues.SongQueue.constructor` | src/stacks_queues_music.py:5-6 | the queue starts empty |
| `Queues.SongQueue.Enqueue` | src/stacks_queues_music.py:8-9 | the song joins at the back |
| `Queues.SongQueue.Dequeue` | src/stacks_queues_music.py:11-14 | the oldest song leaves and is returned; an empty queue gives None and stays empty |
| `Queues.SongQueue.ClearQueue` | src/stacks_queues_music.py:19-20 | the queue becomes empty |
| `Queues.Bump` | src/stacks_queues_music.py:52 | an upvote keeps the song and adds one to its priority |
| `Queues.FirstTitleEntry` | src/stacks_queues_music.py:50-51 | it is the first entry whose title matches case-insensitively, or the length |
| `Queues.UpvoteEffect` | src/stacks_queues_music.py:49-55 | after an upvote and re-sort, the queue is a sorted permutation holding the upvoted entry in place of the old one; the total of the priorities rises by one; each priority class keeps its order |
| `Queues.PrioritySongQueue.constructor` | src/stacks_queues_music.py:27-28 | the party queue starts empty and sorted |
| `Queues.PrioritySongQueue.Enqueue` | src/stacks_queues_music.py:30-32 | the entry is added after every entry of equal or higher priority; the queue stays sorted and every priority class keeps its order |
| `Queues.PrioritySongQueue.Dequeue` | src/stacks_queues_music.py:34-37 | the front song, of the highest priority, is removed and returned; an empty queue gives None |
| `Queues.PrioritySongQueue.ClearQueue` | src/stacks_queues_music.py:42-43 | the queue becomes empty |
| `Queues.PrioritySongQueue.Upvote` | src/stacks_queues_music.py:49-55 | it succeeds exactly when some title matches; then the first match gains a vote and the queue is re-sorted; otherwise nothing changes |
| `Queues.ListeningHistoryStack.constructor` | src/stacks_queues_music.py:58-59 | the history starts empty |
| `Queues.ListeningHistoryStack.Push` | src/stacks_queues_music.py:61-62 | the song is recorded last |
| `Queues.ListeningHistoryStack.SearchHistory` | src/stacks_queues_music.py:71-72 | it holds exactly the played songs whose title or artist contains the query, as often as they were played, in playing order |
| `Queues.MusicPlayer.constructor` | src/stacks_queues_music.py:75-81 | both queues and the history start empty, and nothing is playing |
| `Queues.MusicPlayer.PlaySong` | src/stacks_queues_music.py:83-92 | a successful playback makes the song current and pushes it on the history; a failed one clears the current song and leaves the history alone |
| `Queues.MusicPlayer.StopSong` | src/stacks_queues_music.py:94-96 | nothing is playing afterwards |
| `Queues.MusicPlayer.AddToPlayNext` | src/stacks_queues_music.py:98-99 | the song joins the back of the play-next queue |
| `Queues.MusicPlayer.PlayNextSong` | src/stacks_queues_music.py:101-106 | the oldest queued song is taken and played; an empty queue changes nothing |
| `Queues.MusicPlayer.AddToPartyQueue` | src/stacks_queues_music.py:108-109 | the song enters the party queue by priority |
| `Queues.MusicPlayer.PlayFromPartyQueue` | src/stacks_queues_music.py:111-116 | the front party song is taken and played; an empty queue changes nothing |
| `Queues.MusicPlayer.UpvoteSongInPartyQueue` | src/stacks_queues_music.py:118-122 | the source returns nothing and prints which branch it took; the result `found` stands for that message. It is true exactly when some entry's title matches; then the queue becomes the old queue with the first match's priority raised by one, re-sorted by priority; a miss changes nothing |
| `RecursiveShuffle.InterleavingCounts` | src/recursive_playlist_shuffle.py:52 | an interleaving of two lists holds exactly their elements |
| `RecursiveShuffle.InterleavingKeepsOrder` | src/recursive_playlist_shuffle.py:52 | an interleaving keeps each list's own order |
| `RecursiveShuffle.InterleaveWithEmpty` | src/recursive_playlist_shuffle.py:72-75 | a list is an interleaving of itself with an empty list, on either side |
| `RecursiveShuffle.Fallback` | src/recursive_playlist_shuffle.py:54-69 | the fallback merge is as long as both halves together and consumes draws forward (`RecursiveShuffle.FallbackInterleaves` adds that it is an interleaving) |
| `RecursiveShuffle.FallbackInterleaves` | src/recursive_playlist_shuffle.py:54-69 | the fallback merge past depth 50 is an interleaving of the two halves |
| `RecursiveShuffle.FallbackLoop` | src/recursive_playlist_shuffle.py:54-69 | the fallback loop and its two `extend` calls compute the fallback merge |
| `RecursiveShuffle.MergeAsWritten` | src/recursive_playlist_shuffle.py:52-81 | the merge as written is never shorter than both inputs together (`RecursiveShuffle.MergeAsWrittenCovers` and `RecursiveShuffle.MergeAsWrittenRepeats` say what else it does) |
| `RecursiveShuffle.Merge` | src/recursive_playlist_shuffle.py:52-81 | the corrected merge holds exactly the elements of both inputs, as often as they do (`RecursiveShuffle.MergeInterleaves` adds that each input keeps its order) |
| `RecursiveShuffle.MergeEmptySide` | src/recursive_playlist_shuffle.py:72-75 | merging with an empty side returns the other side, in both the as-written and the corrected merge |
| `RecursiveShuffle.MergeInterleaves` | src/recursive_playlist_shuffle.py:52-81 | the corrected merge is an interleaving of its inputs, so it loses, duplicates and reorders nothing |
| `RecursiveShuffle.MergeAsWrittenKeeps` | src/recursive_playlist_shuffle.py:72-81 | the merge as written holds every element of both inputs at least as often as they do |
| `RecursiveShuffle.MergeAsWrittenFromInputs` | src/recursive_playlist_shuffle.py:72-81 | every element the merge as written emits comes from one of its inputs |
| `RecursiveShuffle.MergeAsWrittenCovers` | src/recursive_playlist_shuffle.py:52-81 | the merge as written keeps every input element, never invents one, and is at least as long as both inputs together |
| `RecursiveShuffle.MergeAsWrittenAllTails` | src/recursive_playlist_shuffle.py:78-81 | when every draw picks the right side, the merge as written adds one extra copy per level of depth left before 50 |
| `RecursiveShuffle.MergeAsWrittenRepeats` | src/recursive_playlist_shuffle.py:81 | merging `[1]` and `[2]` at depth 50 with two right-side draws gives `[2, 2, 1]` |
| `RecursiveShuffle.Sample` | src/recursive_playlist_shuffle.py:28-30 | the depth-limit fallback returns a permutation of the playlist |
| `RecursiveShuffle.ShuffleBaseCases` | src/recursive_playlist_shuffle.py:33-38 | at most one song is returned unchanged, and two songs come back in either order |
| `RecursiveShuffle.SwapPermutes` | src/recursive_playlist_shuffle.py:38 | `playlist[::-1]` on two songs is a permutation |
| `RecursiveShuffle.HalvesMerged` | src/recursive_playlist_shuffle.py:40-50 | merging permutations of the two halves gives a permutation of the whole |
| `RecursiveShuffle.Shuffle` | src/recursive_playlist_shuffle.py:16-50 | the result is never shorter than the playlist, and with the corrected merge it is exactly as long (`RecursiveShuffle.ShufflePermutes` adds that it is then a permutation; `RecursiveShuffle.ShuffleAsWrittenKeeps` that as written it loses no song and invents none) |
| `RecursiveShuffle.ShufflePermutes` | src/recursive_playlist_shuffle.py:16-50 | with the corrected merge, the shuffle returns a permutation of the playlist for every draw sequence |
| `RecursiveShuffle.ShuffleAsWrittenGrows` | src/recursive_playlist_shuffle.py:41-50 | as written, with every draw picking the right side, shuffling three songs returns 53 songs |
| `RecursiveShuffle.ShuffleAsWrittenKeeps` | src/recursive_playlist_shuffle.py:16-81 | as written, the shuffle holds every song of the playlist at least as often as the playlist does, and no other song |

## Left out

- **Display and progress output.** `display_*`, `list_playlists`, playlist descriptions,
  printed messages and `demonstrate_linked_list_operations`/`main` are printing only.
- **Loading the library.** `load_music_library` scans a directory and reads `stat().st_size`.
  Both are file-system I/O. The model starts from the loaded sequence of songs, and
  `ExtractSongInfo` takes the stem, suffix, path and size as arguments.
- **Floating-point statistics.** The megabyte and gigabyte figures of `get_library_statistics`
  are left out. The integer byte total is kept.
- **Audio playback.** Calls into `pygame` are left out. Success or failure of
  `pygame.mixer.music.load`/`play` is the `playbackOk` argument. The player's `music_manager`
  reference is never used by the core and is not stored.
- **Text handling.** Lower-casing and whitespace stripping cover ASCII only. Python's
  Unicode case mapping and its full whitespace class are not modelled. String order is
  Python's own: it compares code points, so it needs no such restriction.
- **Randomness.** `random` is replaced by explicit arguments. The model says nothing about
  the distribution of shuffles.
  - `RecursiveShuffle.Sample` removes the drawn index from the pool. This is not CPython's
    exact `random.sample` algorithm, only a permutation chosen by the draws.
- **Song objects.** Songs are values. The source passes dictionaries by reference, but no
  core operation mutates a song, so aliasing is not observable.
  - `if song:` in `play_next_song` and `play_from_party_queue` treats any returned
    dictionary as present. An empty dictionary never comes out of the library, so the model
    treats every `Some` as true.
- **Playlist nodes.** Removed nodes stay in the arena unreachable. The model does not capture
  garbage collection, or node identity beyond the arena index.
- LinkedPlaylist.LinkedListPlaylist.ReversePlaylist: only the early return for at most one
  song is modelled.
  - For two or more songs, the relinking loop at src/linked_list_playlist.py:267-271 advances
    with `current = current.previous` after the swap. That is the old `next`, which for the
    new head (the old tail) is `None`. The loop therefore flips one node and leaves the list
    inconsistent.
  - No reversal property holds for that path, so no involution property is claimed.
- **Default arguments.** Python's defaults become ordinary parameters that every caller
  passes: `priority=0` of `PrioritySongQueue.enqueue` and `MusicPlayer.add_to_party_queue`,
  and `max_songs=10` of `load_playlist_from_library` and
  `PlaylistManager.create_playlist_from_library`. A call that relies on the default is the
  call with that value.
- **Queue sizes.** `Queues.SongQueue.GetSize`, `Queues.PrioritySongQueue.GetSize` and
  `Queues.ListeningHistoryStack.GetSize` are the length of the stored sequence. They carry
  no contract of their own.
- `main_gui` and the other front ends outside the four core files are not part of this model.

## Findings

| source | as written | input that shows it | evidently intended | confidence | as-written member | corrected member |
|---|---|---|---|---|---|---|
| src/recursive_playlist_shuffle.py:81 | the right-side branch returns `[right[0]] + merge_with_random_order(left, right, depth + 1)`, so `right[0]` stays in `right` and is emitted again | `merge_with_random_order([a], [b], 50)` with both draws at least 0.5 gives `[b, b, a]`; `recursive_shuffle_playlist` on three songs with every draw at least 0.5 gives 53 songs | recurse on `right[1:]`, as the left-side branch at line 79 does with `left[1:]`, so that the merge is an interleaving and the shuffle a permutation | not executed | `RecursiveShuffle.MergeAsWrittenRepeats` | `RecursiveShuffle.MergeInterleaves` |

/** The doubly linked playlist with a play cursor (`LinkedListPlaylist` in
    linked_list_playlist.py). Nodes live in an arena: node `n` holds `nodeSong[n]`, its
    successor `nextOf[n]` and its predecessor `prevOf[n]`, with `Nil` for "no node"; `head`,
    `tail` and `cursor` are node indices. Nodes are never reclaimed: an unlinked node simply
    stays in the arena unreachable, as a dropped Python object would be collected.

    The ghost `order` lists the nodes reachable from `head`, front to back, and `pos` is the
    cursor's position in it (-1 when there is no cursor); `Valid()` ties the links to them,
    and `Contents()` is the song sequence a listener sees. */
module LinkedPlaylist {
  import opened Text
  import opened Seqs
  import opened Songs
  import opened Links

  /** The cursor is the node at position `pos`, and there is a cursor exactly when the list
      is not empty. */
  ghost predicate CursorAt(order: seq<nat>, cursor: int, pos: int)
  {
    if |order| == 0 then cursor == Nil && pos == -1
    else 0 <= pos < |order| && cursor == order[pos]
  }

  /** Linking a fresh node in at position `k` of a non-empty list keeps the cursor on its
      node, which moves one place on when the insertion is at or before it. */
  lemma CursorAfterInsert(order: seq<nat>, k: nat, n: nat, cursor: int, pos: int,
                          order': seq<nat>, pos': int)
    requires k <= |order| && order' == InsertAt(order, k, n)
    requires CursorAt(order, cursor, pos) && |order| > 0
    requires pos' == if pos >= k then pos + 1 else pos
    ensures CursorAt(order', cursor, pos')
  {
  }

  /** Unlinking position `k`: a cursor elsewhere keeps its node; a cursor on it moves to the
      successor, else the predecessor, else (the list is now empty) to no node. */
  lemma CursorAfterRemove(order: seq<nat>, k: nat, cursor: int, pos: int,
                          order': seq<nat>, cursor': int, pos': int)
    requires k < |order| && order' == RemoveAt(order, k)
    requires CursorAt(order, cursor, pos)
    requires pos == k ==>
      if k + 1 < |order| then cursor' == order[k + 1] && pos' == k
      else if k > 0 then cursor' == order[k - 1] && pos' == k - 1
      else cursor' == Nil && pos' == -1
    requires pos != k ==> cursor' == cursor && pos' == if pos > k then pos - 1 else pos
    ensures CursorAt(order', cursor', pos')
  {
  }

  /** Exchanging the elements at `i` and `j`; nothing happens when `i == j`. */
  function Swap<T>(s: seq<T>, i: nat, j: nat): (r: seq<T>)
    requires i < |s| && j < |s|
    ensures |r| == |s| && multiset(r) == multiset(s)
    ensures r[i] == s[j] && r[j] == s[i]
    ensures forall k :: 0 <= k < |s| && k != i && k != j ==> r[k] == s[k]
  {
    if i != j then s[i := s[j]][j := s[i]] else s
  }

  predicate PicksWithin(picks: seq<(nat, nat)>, n: nat)
  {
    forall t :: 0 <= t < |picks| ==> picks[t].0 < n && picks[t].1 < n
  }

  /** The swaps of `picks` applied in order: a permutation of `s`. */
  function ApplySwaps<T>(s: seq<T>, picks: seq<(nat, nat)>): (r: seq<T>)
    requires PicksWithin(picks, |s|)
    ensures |r| == |s| && multiset(r) == multiset(s)
  {
    if picks == [] then s
    else
      var last := picks[|picks| - 1];
      Swap(ApplySwaps(s, picks[..|picks| - 1]), last.0, last.1)
  }

  class LinkedListPlaylist {
    var nodeSong: seq<Song>
    var nextOf: seq<int>
    var prevOf: seq<int>
    var head: int
    var tail: int
    var cursor: int
    var size: int
    ghost var order: seq<nat>
    ghost var pos: int

    /** The links form one chain from `head` to `tail` through the nodes of `order`, both
        ways, and `size` counts those nodes. */
    ghost predicate Linked()
      reads this
    {
      Chain(order, nextOf, prevOf, head, tail, |nodeSong|) && size == |order|
    }

    ghost predicate Valid()
      reads this
    {
      Linked() && CursorAt(order, cursor, pos)
    }

    /** The songs from head to tail. */
    ghost function Contents(): seq<Song>
      reads this
      requires Linked()
    {
      SongsAt(order, nodeSong)
    }

    constructor ()
      ensures Valid() && Contents() == []
    {
      nodeSong, nextOf, prevOf := [], [], [];
      head, tail, cursor, size := Nil, Nil, Nil, 0;
      order, pos := [], -1;
    }

    /** `is_empty` tests `head`, which is the same as an empty song sequence. */
    function IsEmpty(): (b: bool)
      reads this
      requires Valid()
      ensures b <==> Contents() == []
    {
      head == Nil
    }

    function GetSize(): (n: int)
      reads this
      requires Valid()
      ensures n == |Contents()|
    {
      size
    }

    /** `get_current_song`: the song under the cursor, None only for an empty playlist. */
    function GetCurrentSong(): (r: Option<Song>)
      reads this
      requires Valid()
      ensures r == if Contents() == [] then None else Some(Contents()[pos])
    {
      if cursor == Nil then None else Some(nodeSong[cursor])
    }

    /** `add_song_at_end`. The playlist is only required to be linked when empty, since the
        shuffle rebuilds from an emptied list whose cursor still names an old node. */
    method AddSongAtEnd(song: Song)
      requires Linked() && (size != 0 ==> Valid())
      modifies this
      ensures Valid()
      ensures Contents() == old(Contents()) + [song]
      ensures old(size) == 0 ==> pos == 0
      ensures old(size) != 0 ==> cursor == old(cursor) && pos == old(pos)
    {
      var n := |nodeSong|;
      if head == Nil {
        nodeSong, nextOf, prevOf, head, tail, cursor, size, order, pos :=
          nodeSong + [song], nextOf + [Nil], prevOf + [tail], n, n, n, size + 1,
          InsertAt(order, |order|, n), 0;
      } else {
        NodeAt(order, n, |order| - 1);
        nodeSong, nextOf, prevOf, tail, size, order :=
          nodeSong + [song], (nextOf + [Nil])[tail := n], prevOf + [tail], n, size + 1,
          InsertAt(order, |order|, n);
      }
      AppendNode(old(order), old(nodeSong), old(nextOf), old(prevOf), old(head), old(tail), song,
                 order, nodeSong, nextOf, prevOf, head, tail);
    }

    /** `add_song_at_beginning`. */
    method AddSongAtBeginning(song: Song)
      requires Valid()
      modifies this
      ensures Valid()
      ensures Contents() == [song] + old(Contents())
      ensures old(size) == 0 ==> pos == 0
      ensures old(size) != 0 ==> cursor == old(cursor) && pos == old(pos) + 1
    {
      var n := |nodeSong|;
      if head == Nil {
        nodeSong, nextOf, prevOf, head, tail, cursor, size, order, pos :=
          nodeSong + [song], nextOf + [head], prevOf + [Nil], n, n, n, size + 1,
          InsertAt(order, 0, n), 0;
      } else {
        NodeAt(order, n, 0);
        nodeSong, nextOf, prevOf, head, size, order, pos :=
          nodeSong + [song], nextOf + [head], (prevOf + [Nil])[head := n], n, size + 1,
          InsertAt(order, 0, n), pos + 1;
      }
      PrependNode(old(order), old(nodeSong), old(nextOf), old(prevOf), old(head), old(tail), song,
                  order, nodeSong, nextOf, prevOf, head, tail);
    }

    /** Appends `songs` in order, one `AddSongAtEnd` each. */
    method AddSongsAtEnd(songs: seq<Song>)
      requires Linked() && (size != 0 ==> Valid())
      modifies this
      ensures Linked() && (size != 0 ==> Valid())
      ensures old(Valid()) ==> Valid()
      ensures Contents() == old(Contents()) + songs
      ensures old(size) == 0 && songs != [] ==> pos == 0
      ensures old(size) != 0 ==> cursor == old(cursor) && pos == old(pos)
    {
      ghost var start, wasValid := Contents(), Valid();
      for t := 0 to |songs|
        invariant Linked() && (size != 0 ==> Valid())
        invariant wasValid ==> Valid()
        invariant Contents() == start + songs[..t]
        invariant old(size) == 0 && t > 0 ==> pos == 0
        invariant old(size) != 0 ==> cursor == old(cursor) && pos == old(pos)
      {
        assert songs[..t + 1] == songs[..t] + [songs[t]];
        AddSongAtEnd(songs[t]);
      }
      assert songs[..|songs|] == songs;
    }

    /** The scan shared by the title operations: walks from `head` and stops at the first
        node whose title matches `target` case-insensitively, or at the end. */
    method FindTitle(target: string) returns (current: int, ghost k: nat)
      requires Valid()
      ensures k == FirstTitleMatch(Contents(), target)
      ensures current == if k < |order| then order[k] else Nil
    {
      current := head;
      k := 0;
      while current != Nil
        invariant 0 <= k <= |order|
        invariant current == if k < |order| then order[k] else Nil
        invariant forall j :: 0 <= j < k ==> !TitleIs(Contents()[j], target)
        decreases |order| - k
      {
        NextAt(order, nextOf, k);
        assert Contents()[k] == nodeSong[current];
        if Lower(nodeSong[current].title) == Lower(target) {
          return;
        }
        current := nextOf[current];
        k := k + 1;
      }
    }

    /** `insert_song_after`: the new song goes right after the first song whose title
        matches `target` case-insensitively; the cursor stays on its node. */
    method InsertSongAfter(target: string, song: Song) returns (ok: bool)
      requires Valid()
      modifies this
      ensures Valid()
      ensures ok <==> FirstTitleMatch(old(Contents()), target) < old(size)
      ensures ok ==>
        var i := FirstTitleMatch(old(Contents()), target);
        && Contents() == InsertAt(old(Contents()), i + 1, song)
        && cursor == old(cursor) && pos == (if old(pos) > i then old(pos) + 1 else old(pos))
        && (tail == old(tail) <==> i + 1 < old(size))
      ensures !ok ==> unchanged(this)
    {
      if head == Nil {
        return false;
      }
      var current, k := FindTitle(target);
      if current == Nil {
        return false;
      }
      LinkAfter(current, k, song);
      pos := if pos > k then pos + 1 else pos;
      CursorAfterInsert(old(order), k + 1, |old(nodeSong)|, cursor, old(pos), order, pos);
      return true;
    }

    /** The relinking `insert_song_after` performs once it has found its node `current`, at
        position `k`: a fresh node takes over `current`'s successor and becomes the tail when
        `current` was the tail. */
    method LinkAfter(current: int, ghost k: nat, song: Song)
      requires Linked() && k < |order| && current == order[k]
      modifies this
      ensures Linked()
      ensures order == InsertAt(old(order), k + 1, |old(nodeSong)|)
      ensures Contents() == InsertAt(old(Contents()), k + 1, song)
      ensures cursor == old(cursor) && pos == old(pos)
      ensures tail == old(tail) <==> k + 1 < old(size)
    {
      var n := |nodeSong|;
      NodeAt(order, n, k);
      NextAt(order, nextOf, k);
      var following := nextOf[current];
      if following != Nil {
        NodeAt(order, n, k + 1);
        nodeSong, nextOf, prevOf :=
          nodeSong + [song], (nextOf + [following])[current := n],
          (prevOf + [current])[following := n];
      } else {
        nodeSong, nextOf, prevOf, tail :=
          nodeSong + [song], (nextOf + [following])[current := n], prevOf + [current], n;
      }
      size, order := size + 1, InsertAt(order, k + 1, n);
      InsertNodeAfter(old(order), old(nodeSong), old(nextOf), old(prevOf), head, old(tail), song,
                      k, order, nodeSong, nextOf, prevOf, tail);
    }

    /** `insert_song_before`: the new song goes right before the first title match; the
        cursor stays on its node. */
    method InsertSongBefore(target: string, song: Song) returns (ok: bool)
      requires Valid()
      modifies this
      ensures Valid()
      ensures ok <==> FirstTitleMatch(old(Contents()), target) < old(size)
      ensures ok ==>
        var i := FirstTitleMatch(old(Contents()), target);
        && Contents() == InsertAt(old(Contents()), i, song)
        && cursor == old(cursor) && pos == (if old(pos) >= i then old(pos) + 1 else old(pos))
        && (head == old(head) <==> i > 0)
      ensures !ok ==> unchanged(this)
    {
      if head == Nil {
        return false;
      }
      var current, k := FindTitle(target);
      if current == Nil {
        return false;
      }
      LinkBefore(current, k, song);
      pos := if pos >= k then pos + 1 else pos;
      CursorAfterInsert(old(order), k, |old(nodeSong)|, cursor, old(pos), order, pos);
      return true;
    }

    /** The relinking `insert_song_before` performs once it has found its node `current`, at
        position `k`: a fresh node takes over `current`'s predecessor and becomes the head
        when `current` was the head. */
    method LinkBefore(current: int, ghost k: nat, song: Song)
      requires Linked() && k < |order| && current == order[k]
      modifies this
      ensures Linked()
      ensures order == InsertAt(old(order), k, |old(nodeSong)|)
      ensures Contents() == InsertAt(old(Contents()), k, song)
      ensures cursor == old(cursor) && pos == old(pos)
      ensures head == old(head) <==> k > 0
    {
      var n := |nodeSong|;
      NodeAt(order, n, k);
      PrevAt(order, prevOf, k);
      var preceding := prevOf[current];
      if preceding != Nil {
        NodeAt(order, n, k - 1);
        nodeSong, nextOf, prevOf :=
          nodeSong + [song], (nextOf + [current])[preceding := n],
          (prevOf + [preceding])[current := n];
      } else {
        nodeSong, nextOf, prevOf, head :=
          nodeSong + [song], nextOf + [current], (prevOf + [preceding])[current := n], n;
      }
      size, order := size + 1, InsertAt(order, k, n);
      InsertNodeBefore(old(order), old(nodeSong), old(nextOf), old(prevOf), old(head), tail, song,
                       k, order, nodeSong, nextOf, prevOf, head);
    }

    /** `remove_song`: unlinks the first title match. A cursor on that node first moves to its
        successor, else its predecessor, else to no node; a cursor elsewhere stays on its
        node. */
    method RemoveSong(title: string) returns (ok: bool)
      requires Valid()
      modifies this
      ensures Valid()
      ensures ok <==> FirstTitleMatch(old(Contents()), title) < old(size)
      ensures ok ==>
        var i := FirstTitleMatch(old(Contents()), title);
        && Contents() == RemoveAt(old(Contents()), i)
        && (old(pos) == i ==> pos == (if i + 1 < old(size) then i else i - 1))
        && (old(pos) != i ==>
              cursor == old(cursor) && pos == (if old(pos) > i then old(pos) - 1 else old(pos)))
      ensures !ok ==> unchanged(this)
    {
      if head == Nil {
        return false;
      }
      var current, k := FindTitle(title);
      if current == Nil {
        return false;
      }
      NextAt(order, nextOf, k);
      PrevAt(order, prevOf, k);
      var following, preceding := nextOf[current], prevOf[current];
      if cursor == current {
        if following != Nil {
          cursor := following;
        } else if preceding != Nil {
          cursor := preceding;
          pos := pos - 1;
        } else {
          cursor := Nil;
          pos := -1;
        }
      } else if pos > k {
        pos := pos - 1;
      }
      Unlink(current, k);
      CursorAfterRemove(old(order), k, old(cursor), old(pos), order, cursor, pos);
      return true;
    }

    /** The unlinking `remove_song` performs once it has found its node `current`, at
        position `k`: its neighbours are joined, and `head` / `tail` move past it when it was
        the first / last node. The node itself keeps its links, unreachable. */
    method Unlink(current: int, ghost k: nat)
      requires Linked() && k < |order| && current == order[k]
      modifies this
      ensures Linked()
      ensures order == RemoveAt(old(order), k)
      ensures Contents() == RemoveAt(old(Contents()), k)
      ensures cursor == old(cursor) && pos == old(pos)
    {
      NextAt(order, nextOf, k);
      PrevAt(order, prevOf, k);
      var following, preceding := nextOf[current], prevOf[current];
      if preceding != Nil {
        NodeAt(order, |nodeSong|, k - 1);
        nextOf := nextOf[preceding := following];
      } else {
        head := following;
      }
      if following != Nil {
        NodeAt(order, |nodeSong|, k + 1);
        prevOf := prevOf[following := preceding];
      } else {
        tail := preceding;
      }
      size, order := size - 1, RemoveAt(order, k);
      UnlinkNode(old(order), nodeSong, old(nextOf), old(prevOf), old(head), old(tail), k,
                 order, nextOf, prevOf, head, tail);
    }

    /** `next_song`: moves forward one node and returns its song; at the tail (or with no
        cursor) it returns None and stays put. There is no wrap-around. */
    method NextSong() returns (r: Option<Song>)
      requires Valid()
      modifies this`cursor, this`pos
      ensures Valid()
      ensures old(pos) + 1 < size ==> pos == old(pos) + 1 && r == Some(Contents()[pos])
      ensures old(pos) + 1 >= size ==> r == None && cursor == old(cursor) && pos == old(pos)
    {
      if cursor == Nil {
        return None;
      }
      NextAt(order, nextOf, pos);
      if nextOf[cursor] == Nil {
        return None;
      }
      cursor := nextOf[cursor];
      pos := pos + 1;
      return Some(nodeSong[cursor]);
    }

    /** `previous_song`: the mirror image of `NextSong`. */
    method PreviousSong() returns (r: Option<Song>)
      requires Valid()
      modifies this`cursor, this`pos
      ensures Valid()
      ensures old(pos) > 0 ==> pos == old(pos) - 1 && r == Some(Contents()[pos])
      ensures old(pos) <= 0 ==> r == None && cursor == old(cursor) && pos == old(pos)
    {
      if cursor == Nil {
        return None;
      }
      PrevAt(order, prevOf, pos);
      if prevOf[cursor] == Nil {
        return None;
      }
      cursor := prevOf[cursor];
      pos := pos - 1;
      return Some(nodeSong[cursor]);
    }

    /** `go_to_first_song`: None only for an empty playlist; otherwise the cursor goes to
        `head`. */
    method GoToFirstSong() returns (r: Option<Song>)
      requires Valid()
      modifies this`cursor, this`pos
      ensures Valid()
      ensures old(Contents()) == [] ==> r == None && pos == old(pos)
      ensures old(Contents()) != [] ==> r == Some(Contents()[0]) && pos == 0 && cursor == head
    {
      if head == Nil {
        return None;
      }
      cursor := head;
      pos := 0;
      return Some(nodeSong[cursor]);
    }

    /** `go_to_last_song`: None only for an empty playlist; otherwise the cursor goes to
        `tail`. */
    method GoToLastSong() returns (r: Option<Song>)
      requires Valid()
      modifies this`cursor, this`pos
      ensures Valid()
      ensures old(Contents()) == [] ==> r == None && pos == old(pos)
      ensures old(Contents()) != [] ==>
        r == Some(Contents()[|Contents()| - 1]) && pos == size - 1 && cursor == tail
    {
      if head == Nil {
        return None;
      }
      cursor := tail;
      pos := size - 1;
      return Some(nodeSong[cursor]);
    }

    /** `reverse_playlist`, as far as it behaves as a reversal: a playlist of at most one
        song is returned from at once, and it is its own reversal. */
    method ReversePlaylist()
      requires Valid() && size <= 1
      ensures Contents() == Reverse(Contents())
    {
      if |Contents()| == 1 {
        assert Contents()[1..] == [];
      }
    }

    /** `search_song`: the first node from `head` whose title or artist contains the query
        case-insensitively, or `Nil`. */
    method SearchSong(query: string) returns (node: int)
      requires Valid()
      ensures var i := FirstQueryMatch(Contents(), query);
              if i < |Contents()| then node == order[i] && nodeSong[node] == Contents()[i]
              else node == Nil
    {
      if head == Nil {
        return Nil;
      }
      var current := head;
      ghost var k := 0;
      while current != Nil
        invariant 0 <= k <= |order|
        invariant current == if k < |order| then order[k] else Nil
        invariant forall j :: 0 <= j < k ==> !MatchesQuery(Contents()[j], query)
        decreases |order| - k
      {
        NextAt(order, nextOf, k);
        assert Contents()[k] == nodeSong[current];
        var song := nodeSong[current];
        if Contains(Lower(song.title), Lower(query)) || Contains(Lower(song.artist), Lower(query)) {
          FirstQueryMatchIs(Contents(), query, k);
          return current;
        }
        current := nextOf[current];
        k := k + 1;
      }
      FirstQueryMatchIs(Contents(), query, k);
      return Nil;
    }

    /** The first loop of `shuffle_playlist`: the songs read from `head` to `tail`. */
    method CollectSongs() returns (songs: seq<Song>)
      requires Valid()
      ensures songs == Contents()
    {
      songs := [];
      var current := head;
      ghost var k := 0;
      while current != Nil
        invariant 0 <= k <= |order|
        invariant current == if k < |order| then order[k] else Nil
        invariant songs == Contents()[..k]
        decreases |order| - k
      {
        NextAt(order, nextOf, k);
        songs := songs + [nodeSong[current]];
        current := nextOf[current];
        k := k + 1;
      }
    }

    /** `shuffle_playlist`: with at least two songs, copies the songs out head to tail,
        applies `2 * size` random swaps (the index pairs drawn by `random.randint`, given
        here as `picks`), rebuilds the list from the result, and puts the cursor on the new
        head. */
    method ShufflePlaylist(picks: seq<(nat, nat)>)
      requires Valid()
      requires size > 1 ==> |picks| == 2 * size && PicksWithin(picks, size)
      modifies this
      ensures Valid()
      ensures old(size) <= 1 ==> unchanged(this)
      ensures old(size) > 1 ==>
        Contents() == ApplySwaps(old(Contents()), picks) && pos == 0 && cursor == head
    {
      if size <= 1 {
        return;
      }
      var songs := CollectSongs();
      songs := SwapPairs(songs, picks);
      Rebuild(songs);
    }

    /** The end of `shuffle_playlist`: the old links are dropped, the songs are appended
        afresh, and the cursor is put on the new head. */
    method Rebuild(songs: seq<Song>)
      requires Linked() && songs != []
      modifies this
      ensures Valid() && Contents() == songs && pos == 0 && cursor == head
    {
      head, tail, size := Nil, Nil, 0;
      order := [];
      AddSongsAtEnd(songs);
      cursor := head;
      pos := 0;
    }
  }

  /** The swap loop of `shuffle_playlist`: each drawn pair `(i, j)` with `i != j` exchanges
      two songs, in the order drawn. */
  method SwapPairs<T>(s: seq<T>, picks: seq<(nat, nat)>) returns (r: seq<T>)
    requires PicksWithin(picks, |s|)
    ensures r == ApplySwaps(s, picks)
  {
    r := s;
    for t := 0 to |picks|
      invariant r == ApplySwaps(s, picks[..t])
    {
      var i, j := picks[t].0, picks[t].1;
      if i != j {
        r := r[i := r[j]][j := r[i]];
      }
      assert picks[..t + 1][..t] == picks[..t];
    }
    assert picks[..|picks|] == picks;
  }

  /** `load_playlist_from_library`: a new playlist holding `library[:maxSongs]`, with the
      first song current when there is one. */
  method LoadPlaylistFromLibrary(library: seq<Song>, maxSongs: int)
    returns (playlist: LinkedListPlaylist)
    ensures fresh(playlist) && playlist.Valid()
    ensures playlist.Contents() == Take(library, maxSongs)
    ensures playlist.Contents() != [] ==> playlist.pos == 0 && playlist.cursor == playlist.head
  {
    playlist := new LinkedListPlaylist();
    if library == [] {
      return;
    }
    playlist.AddSongsAtEnd(Take(library, maxSongs));
  }
}

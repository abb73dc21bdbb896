/** The play-next queue, the priority party queue, the listening history and the player
    state that ties them together (stacks_queues_music.py). Each container is a Python list
    changed in place; here it is a `seq` field that the methods reassign. Whether the audio
    back end managed to load and start a file is not something the model can see: it is the
    `playbackOk` argument of every operation that plays a song. */
module Queues {
  import opened Text
  import opened Seqs
  import opened Songs

  /** `SongQueue`: first in, first out. */
  class SongQueue {
    var queue: seq<Song>

    constructor ()
      ensures queue == []
    {
      queue := [];
    }

    /** `enqueue`: the song joins at the back. */
    method Enqueue(song: Song)
      modifies this
      ensures queue == old(queue) + [song]
    {
      queue := queue + [song];
    }

    /** `dequeue`: the oldest song leaves, and only it; an empty queue gives None and stays
        as it is. */
    method Dequeue() returns (r: Option<Song>)
      modifies this
      ensures old(queue) == [] ==> r == None && queue == []
      ensures old(queue) != [] ==> r == Some(old(queue)[0]) && queue == old(queue)[1..]
      ensures old(queue) == (if r.Some? then [r.value] else []) + queue
    {
      if queue == [] {
        return None;
      }
      r := Some(queue[0]);
      queue := queue[1..];
    }

    function GetSize(): nat
      reads this
    {
      |queue|
    }

    /** `clear_queue`. */
    method ClearQueue()
      modifies this
      ensures queue == []
    {
      queue := [];
    }
  }

  /** A party-queue entry: the song and its vote count. */
  datatype Entry = Entry(song: Song, priority: int)

  function Priority(e: Entry): int
  {
    e.priority
  }

  /** The entry after one more vote. */
  function Bump(e: Entry): (r: Entry)
    ensures r.song == e.song && r.priority == e.priority + 1
  {
    Entry(e.song, e.priority + 1)
  }

  /** Index of the first entry whose song title equals `title` case-insensitively, or the
      length of the queue. */
  function FirstTitleEntry(q: seq<Entry>, title: string): (i: nat)
    ensures i <= |q|
    ensures forall j :: 0 <= j < i ==> !TitleIs(q[j].song, title)
    ensures i < |q| ==> TitleIs(q[i].song, title)
  {
    FirstWhere(q, (e: Entry) => TitleIs(e.song, title))
  }

  lemma FirstTitleEntryIs(q: seq<Entry>, title: string, k: nat)
    requires k < |q| && TitleIs(q[k].song, title)
    requires forall j :: 0 <= j < k ==> !TitleIs(q[j].song, title)
    ensures FirstTitleEntry(q, title) == k
  {
  }

  /** Voting for the entry at `i` and re-sorting: the queue stays sorted, exactly that entry
      has one more vote, every other entry is kept as it was, the total of the votes rises by
      exactly one, and within each priority the entries keep the order they had. */
  lemma UpvoteEffect(q: seq<Entry>, i: nat)
    requires i < |q|
    ensures var r := SortDesc(q[i := Bump(q[i])], Priority);
            |r| == |q| && SortedDesc(r, Priority)
            && multiset(r) == multiset(q) - multiset{q[i]} + multiset{Bump(q[i])}
            && SumOf(r, Priority) == SumOf(q, Priority) + 1
            && forall k :: WithKey(r, Priority, k) == WithKey(q[i := Bump(q[i])], Priority, k)
  {
    var t := q[i := Bump(q[i])];
    assert multiset(t) == multiset(q) - multiset{q[i]} + multiset{Bump(q[i])};
    SortDescSum(t, Priority, Priority);
    SumOfUpdate(q, i, Bump(q[i]), Priority);
    forall k ensures WithKey(SortDesc(t, Priority), Priority, k) == WithKey(t, Priority, k) {
      SortDescStable(t, Priority, k);
    }
  }

  /** `PrioritySongQueue`: entries kept in non-increasing priority order by a stable sort
      after every change, so that among equal priorities the earlier arrival is served
      first. */
  class PrioritySongQueue {
    var queue: seq<Entry>

    ghost predicate Valid()
      reads this
    {
      SortedDesc(queue, Priority)
    }

    constructor ()
      ensures Valid() && queue == []
    {
      queue := [];
    }

    /** `enqueue`: append, then sort by priority, highest first. The new entry lands after
        every entry whose priority is at least its own and before every other one; each
        priority class keeps its order, with the new entry last in its own. */
    method Enqueue(song: Song, priority: int)
      requires Valid()
      modifies this
      ensures Valid()
      ensures queue == InsertDesc(old(queue), Entry(song, priority), Priority)
      ensures multiset(queue) == multiset(old(queue)) + multiset{Entry(song, priority)}
      ensures forall k :: WithKey(queue, Priority, k)
                == WithKey(old(queue), Priority, k) + (if priority == k then [Entry(song, priority)] else [])
    {
      var e := Entry(song, priority);
      SortDescSnoc(queue, e, Priority);
      forall k ensures WithKey(InsertDesc(queue, e, Priority), Priority, k)
                       == WithKey(queue, Priority, k) + (if priority == k then [e] else []) {
        InsertDescStable(queue, e, Priority, k);
      }
      queue := SortDesc(queue + [e], Priority);
    }

    /** `dequeue`: the song of the front entry, which has the highest priority and arrived
        first among its equals; it alone is removed. An empty queue gives None. */
    method Dequeue() returns (r: Option<Song>)
      requires Valid()
      modifies this
      ensures Valid()
      ensures old(queue) == [] ==> r == None && queue == []
      ensures old(queue) != [] ==>
        r == Some(old(queue)[0].song) && queue == old(queue)[1..]
        && forall k :: 0 <= k < |old(queue)| ==> old(queue)[k].priority <= old(queue)[0].priority
    {
      if queue == [] {
        return None;
      }
      r := Some(queue[0].song);
      queue := queue[1..];
    }

    function GetSize(): nat
      reads this
    {
      |queue|
    }

    /** `clear_queue`. */
    method ClearQueue()
      modifies this
      ensures Valid() && queue == []
    {
      queue := [];
    }

    /** `upvote`: the first entry whose title matches gets one more vote and the queue is
        re-sorted; with no match the result is false and nothing changes. `UpvoteEffect`
        spells out what the re-sorted queue holds. */
    method Upvote(title: string) returns (found: bool)
      requires Valid()
      modifies this
      ensures Valid()
      ensures found <==> FirstTitleEntry(old(queue), title) < |old(queue)|
      ensures found ==> var i := FirstTitleEntry(old(queue), title);
                        queue == SortDesc(old(queue)[i := Bump(old(queue)[i])], Priority)
      ensures !found ==> queue == old(queue)
    {
      var i := 0;
      while i < |queue|
        invariant i <= |queue|
        invariant forall j :: 0 <= j < i ==> !TitleIs(queue[j].song, title)
      {
        if Lower(queue[i].song.title) == Lower(title) {
          FirstTitleEntryIs(queue, title, i);
          queue := SortDesc(queue[i := Bump(queue[i])], Priority);
          return true;
        }
        i := i + 1;
      }
      return false;
    }
  }

  /** `ListeningHistoryStack`: an append-only record of what was played. */
  class ListeningHistoryStack {
    var stack: seq<Song>

    constructor ()
      ensures stack == []
    {
      stack := [];
    }

    /** `push`. */
    method Push(song: Song)
      modifies this
      ensures stack == old(stack) + [song]
    {
      stack := stack + [song];
    }

    function GetSize(): nat
      reads this
    {
      |stack|
    }

    /** `search_history`: exactly the entries whose title or artist contains the query,
        case-insensitively, in the order they were played. */
    function SearchHistory(query: string): (r: seq<Song>)
      reads this
      ensures IsSubseq(r, stack)
      ensures forall k :: 0 <= k < |r| ==> MatchesQuery(r[k], query)
      ensures forall s :: multiset(r)[s] == if MatchesQuery(s, query) then multiset(stack)[s] else 0
    {
      SearchMatchesExact(stack, query);
      SearchMatches(stack, query)
    }
  }

  /** `MusicPlayerStacksQueues`: the two queues, the history and the song now playing. */
  class MusicPlayer {
    const playNext: SongQueue
    const party: PrioritySongQueue
    const history: ListeningHistoryStack
    var currentlyPlaying: Option<Song>

    constructor ()
      ensures fresh(playNext) && fresh(party) && fresh(history)
      ensures playNext.queue == [] && party.queue == [] && party.Valid() && history.stack == []
      ensures currentlyPlaying == None
    {
      playNext := new SongQueue();
      party := new PrioritySongQueue();
      history := new ListeningHistoryStack();
      currentlyPlaying := None;
    }

    /** `play_song`: when playback starts the song becomes the current one and is pushed on
        the history; when it fails nothing is playing and the history is untouched. */
    method PlaySong(song: Song, playbackOk: bool)
      modifies this, history
      ensures playbackOk ==> currentlyPlaying == Some(song) && history.stack == old(history.stack) + [song]
      ensures !playbackOk ==> currentlyPlaying == None && history.stack == old(history.stack)
    {
      if playbackOk {
        currentlyPlaying := Some(song);
        history.Push(song);
      } else {
        currentlyPlaying := None;
      }
    }

    /** `stop_song`. */
    method StopSong()
      modifies this
      ensures currentlyPlaying == None
    {
      currentlyPlaying := None;
    }

    /** `add_to_play_next`. */
    method AddToPlayNext(song: Song)
      modifies playNext
      ensures playNext.queue == old(playNext.queue) + [song]
    {
      playNext.Enqueue(song);
    }

    /** `play_next_song`: takes the oldest song of the play-next queue and plays it; with an
        empty queue nothing changes. */
    method PlayNextSong(playbackOk: bool)
      modifies this, playNext, history
      ensures old(playNext.queue) == [] ==>
        playNext.queue == [] && currentlyPlaying == old(currentlyPlaying)
        && history.stack == old(history.stack)
      ensures old(playNext.queue) != [] ==>
        var song := old(playNext.queue)[0];
        playNext.queue == old(playNext.queue)[1..]
        && (playbackOk ==> currentlyPlaying == Some(song) && history.stack == old(history.stack) + [song])
        && (!playbackOk ==> currentlyPlaying == None && history.stack == old(history.stack))
    {
      var next := playNext.Dequeue();
      if next.Some? {
        PlaySong(next.value, playbackOk);
      }
    }

    /** `add_to_party_queue`. */
    method AddToPartyQueue(song: Song, priority: int)
      requires party.Valid()
      modifies party
      ensures party.Valid()
      ensures party.queue == InsertDesc(old(party.queue), Entry(song, priority), Priority)
    {
      party.Enqueue(song, priority);
    }

    /** `play_from_party_queue`: takes the front song of the party queue and plays it; with
        an empty queue nothing changes. */
    method PlayFromPartyQueue(playbackOk: bool)
      requires party.Valid()
      modifies this, party, history
      ensures party.Valid()
      ensures old(party.queue) == [] ==>
        party.queue == [] && currentlyPlaying == old(currentlyPlaying)
        && history.stack == old(history.stack)
      ensures old(party.queue) != [] ==>
        var song := old(party.queue)[0].song;
        party.queue == old(party.queue)[1..]
        && (playbackOk ==> currentlyPlaying == Some(song) && history.stack == old(history.stack) + [song])
        && (!playbackOk ==> currentlyPlaying == None && history.stack == old(history.stack))
    {
      var next := party.Dequeue();
      if next.Some? {
        PlaySong(next.value, playbackOk);
      }
    }

    /** `upvote_song_in_party_queue`: reports whether a matching entry was voted up. */
    method UpvoteSongInPartyQueue(title: string) returns (found: bool)
      requires party.Valid()
      modifies party
      ensures party.Valid()
      ensures found <==> FirstTitleEntry(old(party.queue), title) < |old(party.queue)|
      ensures found ==> var i := FirstTitleEntry(old(party.queue), title);
                        party.queue == SortDesc(old(party.queue)[i := Bump(old(party.queue)[i])], Priority)
      ensures !found ==> party.queue == old(party.queue)
    {
      found := party.Upvote(title);
    }
  }
}

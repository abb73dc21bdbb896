/** The node arena behind the doubly linked playlist, as plain values.

    Nodes are numbered by their position in the arena; a node's song, successor and
    predecessor are held in three parallel sequences, and `Nil` (-1) plays the part of
    Python's `None`. Removed nodes stay in the arena, unreachable, as garbage does in the
    source. `Chain` says that following successors from `head` visits exactly the nodes of
    `order`, once each, ending at `tail`, and that predecessors retrace the same path
    backwards. Every relinking step the playlist performs is proved here to keep `Chain`. */
module Links {
  import opened Songs

  const Nil := -1

  /** Every node of `order` lies in the arena, and no node occurs twice. */
  ghost predicate Nodes(order: seq<nat>, arena: nat)
  {
    && (forall k :: 0 <= k < |order| ==> order[k] < arena)
    && (forall i, j :: 0 <= i < j < |order| ==> order[i] != order[j])
  }

  /** `head` is the first node and `tail` the last (both `Nil` for an empty list). */
  ghost predicate Ends(order: seq<nat>, head: int, tail: int)
  {
    && head == (if |order| == 0 then Nil else order[0])
    && tail == (if |order| == 0 then Nil else order[|order| - 1])
  }

  /** The successor of each node is the node after it; the last node has none. */
  ghost predicate NextLinks(order: seq<nat>, next: seq<int>)
  {
    forall k {:trigger next[order[k]]} :: 0 <= k < |order| ==>
      order[k] < |next| && next[order[k]] == if k + 1 < |order| then order[k + 1] else Nil
  }

  /** The predecessor of each node is the node before it; the first node has none. */
  ghost predicate PrevLinks(order: seq<nat>, prev: seq<int>)
  {
    forall k {:trigger prev[order[k]]} :: 0 <= k < |order| ==>
      order[k] < |prev| && prev[order[k]] == if k > 0 then order[k - 1] else Nil
  }

  ghost predicate Chain(order: seq<nat>, next: seq<int>, prev: seq<int>, head: int, tail: int,
                        arena: nat)
  {
    && |next| == arena && |prev| == arena
    && Nodes(order, arena) && Ends(order, head, tail)
    && NextLinks(order, next) && PrevLinks(order, prev)
  }

  lemma {:induction false} NodeAt(order: seq<nat>, arena: nat, k: nat)
    requires Nodes(order, arena) && k < |order|
    ensures order[k] < arena
    ensures forall j :: 0 <= j < |order| && j != k ==> order[j] != order[k]
  {
    forall j | 0 <= j < |order| && j != k ensures order[j] != order[k] {
      if j < k {
        assert order[j] != order[k];
      } else {
        assert order[k] != order[j];
      }
    }
  }

  lemma {:induction false} NextAt(order: seq<nat>, next: seq<int>, k: nat)
    requires NextLinks(order, next) && k < |order|
    ensures order[k] < |next| && next[order[k]] == if k + 1 < |order| then order[k + 1] else Nil
  {
  }

  lemma {:induction false} PrevAt(order: seq<nat>, prev: seq<int>, k: nat)
    requires PrevLinks(order, prev) && k < |order|
    ensures order[k] < |prev| && prev[order[k]] == if k > 0 then order[k - 1] else Nil
  {
  }

  /** `s` with `x` inserted so that it lands at position `p`. */
  function InsertAt<T>(s: seq<T>, p: nat, x: T): (r: seq<T>)
    requires p <= |s|
    ensures |r| == |s| + 1
    ensures forall k {:trigger r[k]} :: 0 <= k < |r| ==> r[k] == if k < p then s[k] else if k == p then x else s[k - 1]
  {
    seq(|s| + 1, k requires 0 <= k <= |s| => if k < p then s[k] else if k == p then x else s[k - 1])
  }

  /** `s` without its element at position `p`. */
  function RemoveAt<T>(s: seq<T>, p: nat): (r: seq<T>)
    requires p < |s|
    ensures |r| == |s| - 1
    ensures forall k {:trigger r[k]} :: 0 <= k < |r| ==> r[k] == if k < p then s[k] else s[k + 1]
  {
    seq(|s| - 1, k requires 0 <= k < |s| - 1 => if k < p then s[k] else s[k + 1])
  }

  lemma InsertAtEnds<T>(s: seq<T>, x: T)
    ensures InsertAt(s, |s|, x) == s + [x]
    ensures InsertAt(s, 0, x) == [x] + s
  {
  }

  /** A fresh node (the next arena slot) may be inserted anywhere. */
  lemma {:induction false} NodesInsert(order: seq<nat>, n: nat, p: nat)
    requires Nodes(order, n) && p <= |order|
    ensures Nodes(InsertAt(order, p, n), n + 1)
  {
    var order' := InsertAt(order, p, n);
    forall a, b | 0 <= a < b < |order'| ensures order'[a] != order'[b] {
      if a < p {
        NodeAt(order, n, a);
      } else if a > p {
        NodeAt(order, n, a - 1);
      } else {
        NodeAt(order, n, b - 1);
      }
    }
    forall k | 0 <= k < |order'| ensures order'[k] < n + 1 {
      if k != p {
        NodeAt(order, n, if k < p then k else k - 1);
      }
    }
  }

  lemma {:induction false} NodesRemove(order: seq<nat>, arena: nat, p: nat)
    requires Nodes(order, arena) && p < |order|
    ensures Nodes(RemoveAt(order, p), arena)
  {
    var order' := RemoveAt(order, p);
    forall a, b | 0 <= a < b < |order'| ensures order'[a] != order'[b] {
      NodeAt(order, arena, if a < p then a else a + 1);
    }
    forall k | 0 <= k < |order'| ensures order'[k] < arena {
      NodeAt(order, arena, if k < p then k else k + 1);
    }
  }

  /** Appending a fresh node (the next arena slot) holding `song` after the tail. The new
      node's predecessor is the old tail (`Nil` when the list was empty); the old tail, if
      any, gets the new node as successor; the new node becomes the tail, and the head too
      when the list was empty. */
  lemma {:induction false} AppendNode(order: seq<nat>, songs: seq<Song>, next: seq<int>,
                                      prev: seq<int>, head: int, tail: int, song: Song,
                                      order': seq<nat>, songs': seq<Song>, next': seq<int>,
                                      prev': seq<int>, head': int, tail': int)
    requires Chain(order, next, prev, head, tail, |songs|)
    requires order' == InsertAt(order, |order|, |songs|) && songs' == songs + [song]
    requires prev' == prev + [tail] && tail' == |songs|
    requires if |order| == 0 then next' == next + [Nil] && head' == |songs|
             else next' == (next + [Nil])[tail := |songs|] && head' == head
    ensures Chain(order', next', prev', head', tail', |songs'|)
    ensures SongsAt(order', songs') == SongsAt(order, songs) + [song]
  {
    AppendLinks(order, |songs|, next, prev, head, tail, order', next', prev', head', tail');
    SongsAtInsert(order, songs, song, |order|);
    InsertAtEnds(SongsAt(order, songs), song);
  }

  lemma {:induction false} AppendLinks(order: seq<nat>, n: nat, next: seq<int>, prev: seq<int>,
                                       head: int, tail: int, order': seq<nat>, next': seq<int>,
                                       prev': seq<int>, head': int, tail': int)
    requires Chain(order, next, prev, head, tail, n)
    requires order' == InsertAt(order, |order|, n)
    requires prev' == prev + [tail] && tail' == n
    requires if |order| == 0 then next' == next + [Nil] && head' == n
             else next' == (next + [Nil])[tail := n] && head' == head
    ensures Chain(order', next', prev', head', tail', n + 1)
  {
    NodesInsert(order, n, |order|);
    if |order| > 0 {
      NodeAt(order, n, |order| - 1);
    }
    forall k | 0 <= k < |order'|
      ensures order'[k] < |next'|
      ensures next'[order'[k]] == if k + 1 < |order'| then order'[k + 1] else Nil
    {
      if k < |order| {
        NextAt(order, next, k);
        NodeAt(order, n, k);
      }
    }
    assert NextLinks(order', next');
    forall k | 0 <= k < |order'|
      ensures order'[k] < |prev'|
      ensures prev'[order'[k]] == if k > 0 then order'[k - 1] else Nil
    {
      if k < |order| {
        PrevAt(order, prev, k);
      }
    }
    assert PrevLinks(order', prev');
  }

  /** Prepending a fresh node holding `song` before the head: the mirror image of
      `AppendNode`. */
  lemma {:induction false} PrependNode(order: seq<nat>, songs: seq<Song>, next: seq<int>,
                                       prev: seq<int>, head: int, tail: int, song: Song,
                                       order': seq<nat>, songs': seq<Song>, next': seq<int>,
                                       prev': seq<int>, head': int, tail': int)
    requires Chain(order, next, prev, head, tail, |songs|)
    requires order' == InsertAt(order, 0, |songs|) && songs' == songs + [song]
    requires next' == next + [head] && head' == |songs|
    requires if |order| == 0 then prev' == prev + [Nil] && tail' == |songs|
             else prev' == (prev + [Nil])[head := |songs|] && tail' == tail
    ensures Chain(order', next', prev', head', tail', |songs'|)
    ensures SongsAt(order', songs') == [song] + SongsAt(order, songs)
  {
    PrependLinks(order, |songs|, next, prev, head, tail, order', next', prev', head', tail');
    SongsAtInsert(order, songs, song, 0);
    InsertAtEnds(SongsAt(order, songs), song);
  }

  lemma {:induction false} PrependLinks(order: seq<nat>, n: nat, next: seq<int>, prev: seq<int>,
                                        head: int, tail: int, order': seq<nat>, next': seq<int>,
                                        prev': seq<int>, head': int, tail': int)
    requires Chain(order, next, prev, head, tail, n)
    requires order' == InsertAt(order, 0, n)
    requires next' == next + [head] && head' == n
    requires if |order| == 0 then prev' == prev + [Nil] && tail' == n
             else prev' == (prev + [Nil])[head := n] && tail' == tail
    ensures Chain(order', next', prev', head', tail', n + 1)
  {
    NodesInsert(order, n, 0);
    if |order| > 0 {
      NodeAt(order, n, 0);
    }
    forall k | 0 <= k < |order'|
      ensures order'[k] < |next'|
      ensures next'[order'[k]] == if k + 1 < |order'| then order'[k + 1] else Nil
    {
      if k > 0 {
        NextAt(order, next, k - 1);
      }
    }
    assert NextLinks(order', next');
    forall k | 0 <= k < |order'|
      ensures order'[k] < |prev'|
      ensures prev'[order'[k]] == if k > 0 then order'[k - 1] else Nil
    {
      if k > 0 {
        PrevAt(order, prev, k - 1);
        NodeAt(order, n, k - 1);
      }
    }
    assert PrevLinks(order', prev');
  }

  /** Linking a fresh node holding `song` right after the node at position `i`: it takes over
      that node's successor, and becomes the tail when that node was the last. */
  lemma {:induction false} InsertNodeAfter(order: seq<nat>, songs: seq<Song>, next: seq<int>,
                                           prev: seq<int>, head: int, tail: int, song: Song,
                                           i: nat, order': seq<nat>, songs': seq<Song>,
                                           next': seq<int>, prev': seq<int>, tail': int)
    requires Chain(order, next, prev, head, tail, |songs|) && i < |order|
    requires order' == InsertAt(order, i + 1, |songs|) && songs' == songs + [song]
    requires next' == (next + [next[order[i]]])[order[i] := |songs|]
    requires if i + 1 < |order| then prev' == (prev + [order[i]])[order[i + 1] := |songs|]
                                     && tail' == tail
             else prev' == prev + [order[i]] && tail' == |songs|
    ensures Chain(order', next', prev', head, tail', |songs'|)
    ensures SongsAt(order', songs') == InsertAt(SongsAt(order, songs), i + 1, song)
  {
    AfterLinks(order, |songs|, next, prev, head, tail, i, order', next', prev', tail');
    SongsAtInsert(order, songs, song, i + 1);
  }

  lemma {:induction false} AfterLinks(order: seq<nat>, n: nat, next: seq<int>, prev: seq<int>,
                                      head: int, tail: int, i: nat, order': seq<nat>,
                                      next': seq<int>, prev': seq<int>, tail': int)
    requires Chain(order, next, prev, head, tail, n) && i < |order|
    requires order' == InsertAt(order, i + 1, n)
    requires next' == (next + [next[order[i]]])[order[i] := n]
    requires if i + 1 < |order| then prev' == (prev + [order[i]])[order[i + 1] := n]
                                     && tail' == tail
             else prev' == prev + [order[i]] && tail' == n
    ensures Chain(order', next', prev', head, tail', n + 1)
  {
    NodeAt(order, n, i);
    NodesInsert(order, n, i + 1);
    NextAfter(order, next, n, i);
    assert NextLinks(order', next');
    PrevAfter(order, prev, n, i);
    assert PrevLinks(order', prev');
  }

  lemma {:induction false} NextAfter(order: seq<nat>, next: seq<int>, n: nat, i: nat)
    requires Nodes(order, n) && |next| == n && NextLinks(order, next) && i < |order|
    ensures NextLinks(InsertAt(order, i + 1, n), (next + [next[order[i]]])[order[i] := n])
  {
    var c := order[i];
    var order' := InsertAt(order, i + 1, n);
    var next' := (next + [next[c]])[c := n];
    NodeAt(order, n, i);
    NextAt(order, next, i);
    forall k | 0 <= k < |order'|
      ensures order'[k] < |next'|
      ensures next'[order'[k]] == if k + 1 < |order'| then order'[k + 1] else Nil
    {
      if k < i {
        NextAt(order, next, k);
      } else if k > i + 1 {
        NextAt(order, next, k - 1);
      }
    }
    assert NextLinks(order', next');
  }

  lemma {:induction false} PrevAfter(order: seq<nat>, prev: seq<int>, n: nat, i: nat)
    requires Nodes(order, n) && |prev| == n && PrevLinks(order, prev) && i < |order|
    ensures PrevLinks(InsertAt(order, i + 1, n),
                      if i + 1 < |order| then (prev + [order[i]])[order[i + 1] := n]
                      else prev + [order[i]])
  {
    var order' := InsertAt(order, i + 1, n);
    var prev' := if i + 1 < |order| then (prev + [order[i]])[order[i + 1] := n]
                 else prev + [order[i]];
    if i + 1 < |order| {
      NodeAt(order, n, i + 1);
    }
    forall k | 0 <= k < |order'|
      ensures order'[k] < |prev'|
      ensures prev'[order'[k]] == if k > 0 then order'[k - 1] else Nil
    {
      if k <= i {
        PrevAt(order, prev, k);
      } else if k > i + 2 {
        PrevAt(order, prev, k - 1);
      }
    }
    assert PrevLinks(order', prev');
  }

  /** Linking a fresh node holding `song` right before the node at position `i`: it takes
      over that node's predecessor, and becomes the head when that node was the first. */
  lemma {:induction false} InsertNodeBefore(order: seq<nat>, songs: seq<Song>, next: seq<int>,
                                            prev: seq<int>, head: int, tail: int, song: Song,
                                            i: nat, order': seq<nat>, songs': seq<Song>,
                                            next': seq<int>, prev': seq<int>, head': int)
    requires Chain(order, next, prev, head, tail, |songs|) && i < |order|
    requires order' == InsertAt(order, i, |songs|) && songs' == songs + [song]
    requires prev' == (prev + [prev[order[i]]])[order[i] := |songs|]
    requires if i > 0 then next' == (next + [order[i]])[order[i - 1] := |songs|] && head' == head
             else next' == next + [order[i]] && head' == |songs|
    ensures Chain(order', next', prev', head', tail, |songs'|)
    ensures SongsAt(order', songs') == InsertAt(SongsAt(order, songs), i, song)
  {
    BeforeLinks(order, |songs|, next, prev, head, tail, i, order', next', prev', head');
    SongsAtInsert(order, songs, song, i);
  }

  lemma {:induction false} BeforeLinks(order: seq<nat>, n: nat, next: seq<int>, prev: seq<int>,
                                       head: int, tail: int, i: nat, order': seq<nat>,
                                       next': seq<int>, prev': seq<int>, head': int)
    requires Chain(order, next, prev, head, tail, n) && i < |order|
    requires order' == InsertAt(order, i, n)
    requires prev' == (prev + [prev[order[i]]])[order[i] := n]
    requires if i > 0 then next' == (next + [order[i]])[order[i - 1] := n] && head' == head
             else next' == next + [order[i]] && head' == n
    ensures Chain(order', next', prev', head', tail, n + 1)
  {
    NodeAt(order, n, i);
    NodesInsert(order, n, i);
    NextBefore(order, next, n, i);
    assert NextLinks(order', next');
    PrevBefore(order, prev, n, i);
    assert PrevLinks(order', prev');
  }

  lemma {:induction false} NextBefore(order: seq<nat>, next: seq<int>, n: nat, i: nat)
    requires Nodes(order, n) && |next| == n && NextLinks(order, next) && i < |order|
    ensures NextLinks(InsertAt(order, i, n),
                      if i > 0 then (next + [order[i]])[order[i - 1] := n] else next + [order[i]])
  {
    var order' := InsertAt(order, i, n);
    var next' := if i > 0 then (next + [order[i]])[order[i - 1] := n] else next + [order[i]];
    if i > 0 {
      NodeAt(order, n, i - 1);
    }
    forall k | 0 <= k < |order'|
      ensures order'[k] < |next'|
      ensures next'[order'[k]] == if k + 1 < |order'| then order'[k + 1] else Nil
    {
      if k < i - 1 {
        NextAt(order, next, k);
      } else if k > i {
        NextAt(order, next, k - 1);
      }
    }
    assert NextLinks(order', next');
  }

  lemma {:induction false} PrevBefore(order: seq<nat>, prev: seq<int>, n: nat, i: nat)
    requires Nodes(order, n) && |prev| == n && PrevLinks(order, prev) && i < |order|
    ensures PrevLinks(InsertAt(order, i, n), (prev + [prev[order[i]]])[order[i] := n])
  {
    var c := order[i];
    var order' := InsertAt(order, i, n);
    var prev' := (prev + [prev[c]])[c := n];
    NodeAt(order, n, i);
    PrevAt(order, prev, i);
    forall k | 0 <= k < |order'|
      ensures order'[k] < |prev'|
      ensures prev'[order'[k]] == if k > 0 then order'[k - 1] else Nil
    {
      if k < i {
        PrevAt(order, prev, k);
      } else if k > i + 1 {
        PrevAt(order, prev, k - 1);
      }
    }
    assert PrevLinks(order', prev');
  }

  /** Unlinking the node at position `i`: its neighbours are joined, and `head` / `tail`
      move to its successor / predecessor when it was the first / last node. The node itself
      stays in the arena, unreachable. */
  lemma {:induction false} UnlinkNode(order: seq<nat>, songs: seq<Song>, next: seq<int>,
                                      prev: seq<int>, head: int, tail: int, i: nat,
                                      order': seq<nat>, next': seq<int>, prev': seq<int>,
                                      head': int, tail': int)
    requires Chain(order, next, prev, head, tail, |songs|) && i < |order|
    requires order' == RemoveAt(order, i)
    requires if i > 0 then next' == next[order[i - 1] := next[order[i]]] && head' == head
             else next' == next && head' == next[order[i]]
    requires if i + 1 < |order| then prev' == prev[order[i + 1] := prev[order[i]]] && tail' == tail
             else prev' == prev && tail' == prev[order[i]]
    ensures Chain(order', next', prev', head', tail', |songs|)
    ensures SongsAt(order', songs) == RemoveAt(SongsAt(order, songs), i)
  {
    NextAt(order, next, i);
    PrevAt(order, prev, i);
    NodesRemove(order, |songs|, i);
    NextUnlink(order, next, |songs|, i);
    PrevUnlink(order, prev, |songs|, i);
    SongsAtRemove(order, songs, i);
  }

  lemma {:induction false} NextUnlink(order: seq<nat>, next: seq<int>, arena: nat, i: nat)
    requires Nodes(order, arena) && |next| == arena && NextLinks(order, next) && i < |order|
    ensures NextLinks(RemoveAt(order, i),
                      if i > 0 then next[order[i - 1] := next[order[i]]] else next)
  {
    var order' := RemoveAt(order, i);
    var next' := if i > 0 then next[order[i - 1] := next[order[i]]] else next;
    NextAt(order, next, i);
    if i > 0 {
      NodeAt(order, arena, i - 1);
    }
    forall k | 0 <= k < |order'|
      ensures order'[k] < |next'|
      ensures next'[order'[k]] == if k + 1 < |order'| then order'[k + 1] else Nil
    {
      if k < i {
        NextAt(order, next, k);
      } else {
        NextAt(order, next, k + 1);
      }
    }
    assert NextLinks(order', next');
  }

  lemma {:induction false} PrevUnlink(order: seq<nat>, prev: seq<int>, arena: nat, i: nat)
    requires Nodes(order, arena) && |prev| == arena && PrevLinks(order, prev) && i < |order|
    ensures PrevLinks(RemoveAt(order, i),
                      if i + 1 < |order| then prev[order[i + 1] := prev[order[i]]] else prev)
  {
    var order' := RemoveAt(order, i);
    var prev' := if i + 1 < |order| then prev[order[i + 1] := prev[order[i]]] else prev;
    PrevAt(order, prev, i);
    if i + 1 < |order| {
      NodeAt(order, arena, i + 1);
    }
    forall k | 0 <= k < |order'|
      ensures order'[k] < |prev'|
      ensures prev'[order'[k]] == if k > 0 then order'[k - 1] else Nil
    {
      if k < i {
        PrevAt(order, prev, k);
      } else {
        PrevAt(order, prev, k + 1);
      }
    }
    assert PrevLinks(order', prev');
  }

  /** The songs of the nodes in `order`, front to back. */
  function SongsAt(order: seq<nat>, songs: seq<Song>): (r: seq<Song>)
    requires forall k :: 0 <= k < |order| ==> order[k] < |songs|
    ensures |r| == |order|
    ensures forall k {:trigger r[k]} :: 0 <= k < |order| ==> r[k] == songs[order[k]]
  {
    seq(|order|, k requires 0 <= k < |order| => songs[order[k]])
  }

  /** A fresh node holding `s`, linked in at position `k`, shows up at position `k`. */
  lemma {:induction false} SongsAtInsert(order: seq<nat>, songs: seq<Song>, s: Song, k: nat)
    requires forall j :: 0 <= j < |order| ==> order[j] < |songs|
    requires k <= |order|
    ensures forall j :: 0 <= j < |order| + 1 ==> InsertAt(order, k, |songs|)[j] < |songs| + 1
    ensures SongsAt(InsertAt(order, k, |songs|), songs + [s])
         == InsertAt(SongsAt(order, songs), k, s)
  {
  }

  /** Unlinking position `i` drops exactly that song. */
  lemma {:induction false} SongsAtRemove(order: seq<nat>, songs: seq<Song>, i: nat)
    requires forall j :: 0 <= j < |order| ==> order[j] < |songs|
    requires i < |order|
    ensures forall j :: 0 <= j < |order| - 1 ==> RemoveAt(order, i)[j] < |songs|
    ensures SongsAt(RemoveAt(order, i), songs) == RemoveAt(SongsAt(order, songs), i)
  {
  }
}

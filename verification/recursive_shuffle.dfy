/** The divide-and-conquer shuffle of recursive_playlist_shuffle.py. Random choices come
    from a draw stream: `draws(p)` is the draw at position `p`, and every function returns,
    with its result, the position of the first draw it did not use, so that the calls
    consume the stream in the order the Python calls `random` in.

    The merge is modelled twice. `MergeAsWritten` follows line 81 of the source, which after
    emitting `right[0]` recurses on the whole of `right` again, so that song can come out
    many times over; `Merge` drops it, as the matching branch for `left` does. `Shuffle`
    takes the merge to use as a flag. */
module RecursiveShuffle {
  import opened Seqs

  /** Recursion deeper than this falls back to a non-recursive step. */
  const MaxDepth := 50

  /** `random.random() < 0.5` for the draw `d`. */
  predicate Heads(d: nat)
  {
    d % 2 == 0
  }

  /** `r` is `a` and `b` woven together: each keeps its order and nothing else is added. */
  ghost predicate IsInterleaving<T>(r: seq<T>, a: seq<T>, b: seq<T>)
    decreases |r|
  {
    if r == [] then a == [] && b == []
    else
      (a != [] && r[0] == a[0] && IsInterleaving(r[1..], a[1..], b))
      || (b != [] && r[0] == b[0] && IsInterleaving(r[1..], a, b[1..]))
  }

  /** An interleaving holds every element of both inputs, as often as they do, and no
      other. */
  lemma {:induction false} InterleavingCounts<T>(r: seq<T>, a: seq<T>, b: seq<T>)
    requires IsInterleaving(r, a, b)
    ensures |r| == |a| + |b| && multiset(r) == multiset(a) + multiset(b)
  {
    if r != [] {
      assert r == [r[0]] + r[1..];
      if a != [] && r[0] == a[0] && IsInterleaving(r[1..], a[1..], b) {
        InterleavingCounts(r[1..], a[1..], b);
        assert a == [a[0]] + a[1..];
      } else {
        InterleavingCounts(r[1..], a, b[1..]);
        assert b == [b[0]] + b[1..];
      }
    }
  }

  /** An interleaving keeps the order of each input. */
  lemma {:induction false} InterleavingKeepsOrder<T>(r: seq<T>, a: seq<T>, b: seq<T>)
    requires IsInterleaving(r, a, b)
    ensures IsSubseq(a, r) && IsSubseq(b, r)
  {
    if r != [] {
      if a != [] && r[0] == a[0] && IsInterleaving(r[1..], a[1..], b) {
        InterleavingKeepsOrder(r[1..], a[1..], b);
      } else {
        InterleavingKeepsOrder(r[1..], a, b[1..]);
      }
    }
  }

  lemma {:induction false} InterleaveWithEmpty<T>(a: seq<T>)
    ensures IsInterleaving(a, a, []) && IsInterleaving(a, [], a)
  {
    if a != [] {
      InterleaveWithEmpty(a[1..]);
    }
  }

  // ---------------------------------------------------------------------------
  // The fallback merge

  /** The loop `merge_with_random_order` runs once it is more than `MaxDepth` calls deep:
      while both lists have songs left, one draw picks the side to take the next song from;
      then the rest of `left` and the rest of `right` follow. */
  function Fallback<T>(left: seq<T>, right: seq<T>, draws: nat -> nat, p: nat): (r: (seq<T>, nat))
    ensures |r.0| == |left| + |right|
    ensures r.1 >= p
    decreases |left| + |right|
  {
    if left == [] || right == [] then (left + right, p)
    else if Heads(draws(p)) then
      var m := Fallback(left[1..], right, draws, p + 1);
      ([left[0]] + m.0, m.1)
    else
      var m := Fallback(left, right[1..], draws, p + 1);
      ([right[0]] + m.0, m.1)
  }

  /** The fallback's result interleaves its inputs. */
  lemma {:induction false} FallbackInterleaves<T>(left: seq<T>, right: seq<T>, draws: nat -> nat, p: nat)
    ensures IsInterleaving(Fallback(left, right, draws, p).0, left, right)
    decreases |left| + |right|
  {
    if left == [] || right == [] {
      InterleaveWithEmpty(left);
      InterleaveWithEmpty(right);
      assert left + [] == left && [] + right == right;
    } else if Heads(draws(p)) {
      FallbackInterleaves(left[1..], right, draws, p + 1);
    } else {
      FallbackInterleaves(left, right[1..], draws, p + 1);
    }
  }

  /** The fallback from positions `li` and `ri` on, in the index form the loop below
      uses. */
  ghost function FallbackFrom<T>(left: seq<T>, right: seq<T>, li: nat, ri: nat, draws: nat -> nat, q: nat)
    : (seq<T>, nat)
    requires li <= |left| && ri <= |right|
    decreases |left| - li + |right| - ri
  {
    if li == |left| || ri == |right| then (left[li..] + right[ri..], q)
    else if Heads(draws(q)) then
      var m := FallbackFrom(left, right, li + 1, ri, draws, q + 1);
      ([left[li]] + m.0, m.1)
    else
      var m := FallbackFrom(left, right, li, ri + 1, draws, q + 1);
      ([right[ri]] + m.0, m.1)
  }

  /** The index form is the fallback of what is left. */
  lemma {:induction false} FallbackFromIsFallback<T>(left: seq<T>, right: seq<T>, li: nat, ri: nat, draws: nat -> nat, q: nat)
    requires li <= |left| && ri <= |right|
    ensures FallbackFrom(left, right, li, ri, draws, q) == Fallback(left[li..], right[ri..], draws, q)
    decreases |left| - li + |right| - ri
  {
    if li < |left| && ri < |right| {
      assert left[li..][1..] == left[li + 1..] && right[ri..][1..] == right[ri + 1..];
      if Heads(draws(q)) {
        FallbackFromIsFallback(left, right, li + 1, ri, draws, q + 1);
      } else {
        FallbackFromIsFallback(left, right, li, ri + 1, draws, q + 1);
      }
    }
  }

  /** The loop itself, with the indices `li` and `ri` that only grow. */
  method FallbackLoop<T>(left: seq<T>, right: seq<T>, draws: nat -> nat, p: nat)
    returns (result: seq<T>, q: nat)
    ensures (result, q) == Fallback(left, right, draws, p)
  {
    result, q := [], p;
    var li, ri := 0, 0;
    ghost var whole := FallbackFrom(left, right, 0, 0, draws, p);
    assert result + whole.0 == whole.0;
    while li < |left| && ri < |right|
      invariant li <= |left| && ri <= |right|
      invariant result + FallbackFrom(left, right, li, ri, draws, q).0 == whole.0
      invariant FallbackFrom(left, right, li, ri, draws, q).1 == whole.1
      decreases |left| - li + |right| - ri
    {
      if Heads(draws(q)) {
        ghost var m := FallbackFrom(left, right, li + 1, ri, draws, q + 1);
        assert result + ([left[li]] + m.0) == (result + [left[li]]) + m.0;
        result := result + [left[li]];
        li := li + 1;
      } else {
        ghost var m := FallbackFrom(left, right, li, ri + 1, draws, q + 1);
        assert result + ([right[ri]] + m.0) == (result + [right[ri]]) + m.0;
        result := result + [right[ri]];
        ri := ri + 1;
      }
      q := q + 1;
    }
    result := result + (left[li..] + right[ri..]);
    FallbackFromIsFallback(left, right, 0, 0, draws, p);
    assert left[0..] == left && right[0..] == right;
  }

  // ---------------------------------------------------------------------------
  // The recursive merge

  /** `merge_with_random_order` as written: the `right` branch recurses with all of
      `right`. */
  function MergeAsWritten<T>(left: seq<T>, right: seq<T>, depth: nat, draws: nat -> nat, p: nat)
    : (r: (seq<T>, nat))
    ensures |r.0| >= |left| + |right|
    ensures r.1 >= p
    decreases if depth > MaxDepth then 0 else MaxDepth + 1 - depth
  {
    if depth > MaxDepth then Fallback(left, right, draws, p)
    else if left == [] then (right, p)
    else if right == [] then (left, p)
    else if Heads(draws(p)) then
      var m := MergeAsWritten(left[1..], right, depth + 1, draws, p + 1);
      ([left[0]] + m.0, m.1)
    else
      var m := MergeAsWritten(left, right, depth + 1, draws, p + 1);
      ([right[0]] + m.0, m.1)
  }

  /** `merge_with_random_order` with the `right` branch recursing on `right[1:]`. */
  function Merge<T>(left: seq<T>, right: seq<T>, depth: nat, draws: nat -> nat, p: nat)
    : (r: (seq<T>, nat))
    ensures |r.0| == |left| + |right| && multiset(r.0) == multiset(left) + multiset(right)
    ensures r.1 >= p
    decreases if depth > MaxDepth then 0 else MaxDepth + 1 - depth
  {
    if depth > MaxDepth then
      FallbackInterleaves(left, right, draws, p);
      InterleavingCounts(Fallback(left, right, draws, p).0, left, right);
      Fallback(left, right, draws, p)
    else if left == [] then (right, p)
    else if right == [] then (left, p)
    else if Heads(draws(p)) then
      var m := Merge(left[1..], right, depth + 1, draws, p + 1);
      assert left == [left[0]] + left[1..];
      ([left[0]] + m.0, m.1)
    else
      var m := Merge(left, right[1..], depth + 1, draws, p + 1);
      assert right == [right[0]] + right[1..];
      ([right[0]] + m.0, m.1)
  }

  /** Merging with an empty side gives the other side, at every depth and in both
      versions. */
  lemma MergeEmptySide<T>(left: seq<T>, right: seq<T>, depth: nat, draws: nat -> nat, p: nat)
    ensures left == [] ==>
      Merge(left, right, depth, draws, p).0 == right && MergeAsWritten(left, right, depth, draws, p).0 == right
    ensures right == [] ==>
      Merge(left, right, depth, draws, p).0 == left && MergeAsWritten(left, right, depth, draws, p).0 == left
  {
    assert left + [] == left && [] + right == right;
  }

  /** The corrected merge interleaves its inputs: every song of both comes out exactly as
      often as it went in, and each side keeps its order. */
  lemma {:induction false} MergeInterleaves<T>(left: seq<T>, right: seq<T>, depth: nat, draws: nat -> nat, p: nat)
    ensures IsInterleaving(Merge(left, right, depth, draws, p).0, left, right)
    decreases if depth > MaxDepth then 0 else MaxDepth + 1 - depth
  {
    if depth > MaxDepth {
      FallbackInterleaves(left, right, draws, p);
    } else if left == [] || right == [] {
      InterleaveWithEmpty(left);
      InterleaveWithEmpty(right);
    } else if Heads(draws(p)) {
      MergeInterleaves(left[1..], right, depth + 1, draws, p + 1);
    } else {
      MergeInterleaves(left, right[1..], depth + 1, draws, p + 1);
    }
  }

  /** One step of the merge: putting `a[0]` in front keeps the inclusion, whichever
      input it came from. */
  lemma KeepsStep<T>(a: seq<T>, b: seq<T>, m: seq<T>)
    requires a != [] && multiset(a[1..]) + multiset(b) <= multiset(m)
    ensures multiset(a) + multiset(b) <= multiset([a[0]] + m)
    ensures multiset(b) + multiset(a) <= multiset([a[0]] + m)
  {
    assert a == [a[0]] + a[1..];
    assert multiset([a[0]] + m) == multiset{a[0]} + multiset(m);
  }

  /** The step of the merge as written that emits `b[0]` and keeps all of `b`: one more
      copy in front keeps the inclusion. */
  lemma RepeatStep<T>(a: seq<T>, b: seq<T>, m: seq<T>)
    requires b != [] && multiset(a) + multiset(b) <= multiset(m)
    ensures multiset(a) + multiset(b) <= multiset([b[0]] + m)
  {
    assert multiset([b[0]] + m) == multiset{b[0]} + multiset(m);
  }

  /** Past `MaxDepth` the merge as written is the fallback, which loses nothing. */
  lemma KeepsDeep<T>(left: seq<T>, right: seq<T>, depth: nat, draws: nat -> nat, p: nat)
    requires depth > MaxDepth
    ensures multiset(left) + multiset(right) <= multiset(MergeAsWritten(left, right, depth, draws, p).0)
  {
    FallbackInterleaves(left, right, draws, p);
    InterleavingCounts(Fallback(left, right, draws, p).0, left, right);
  }

  /** The merge as written keeps every song of both inputs, at least as often as they
      hold it. */
  lemma {:induction false} MergeAsWrittenKeeps<T>(left: seq<T>, right: seq<T>, depth: nat, draws: nat -> nat, p: nat)
    ensures multiset(left) + multiset(right) <= multiset(MergeAsWritten(left, right, depth, draws, p).0)
    decreases if depth > MaxDepth then 0 else MaxDepth + 1 - depth
  {
    if depth > MaxDepth {
      KeepsDeep(left, right, depth, draws, p);
    } else if left == [] || right == [] {
    } else if Heads(draws(p)) {
      MergeAsWrittenKeeps(left[1..], right, depth + 1, draws, p + 1);
      KeepsStep(left, right, MergeAsWritten(left[1..], right, depth + 1, draws, p + 1).0);
    } else {
      MergeAsWrittenKeeps(left, right, depth + 1, draws, p + 1);
      RepeatStep(left, right, MergeAsWritten(left, right, depth + 1, draws, p + 1).0);
    }
  }

  /** Every song the merge as written emits comes from one of its inputs. */
  lemma {:induction false} MergeAsWrittenFromInputs<T>(left: seq<T>, right: seq<T>, depth: nat, draws: nat -> nat, p: nat)
    ensures forall x :: x in MergeAsWritten(left, right, depth, draws, p).0 ==> x in left || x in right
    decreases if depth > MaxDepth then 0 else MaxDepth + 1 - depth
  {
    var r := MergeAsWritten(left, right, depth, draws, p).0;
    if depth > MaxDepth {
      FallbackInterleaves(left, right, draws, p);
      InterleavingCounts(r, left, right);
      forall x | x in r ensures x in left || x in right {
        assert x in multiset(r);
      }
    } else if left == [] || right == [] {
    } else if Heads(draws(p)) {
      MergeAsWrittenFromInputs(left[1..], right, depth + 1, draws, p + 1);
      assert r == [left[0]] + MergeAsWritten(left[1..], right, depth + 1, draws, p + 1).0;
    } else {
      MergeAsWrittenFromInputs(left, right, depth + 1, draws, p + 1);
      assert r == [right[0]] + MergeAsWritten(left, right, depth + 1, draws, p + 1).0;
    }
  }

  /** What the merge as written still guarantees: every song of both inputs is in the
      result at least as often as in the inputs, nothing else is, and the result is at least
      as long as both inputs together. */
  lemma MergeAsWrittenCovers<T>(left: seq<T>, right: seq<T>, depth: nat, draws: nat -> nat, p: nat)
    ensures var r := MergeAsWritten(left, right, depth, draws, p).0;
            |r| >= |left| + |right|
            && multiset(left) + multiset(right) <= multiset(r)
            && forall x :: x in r ==> x in left || x in right
  {
    MergeAsWrittenKeeps(left, right, depth, draws, p);
    MergeAsWrittenFromInputs(left, right, depth, draws, p);
  }

  /** A stream in which every draw comes out tails (`random.random() >= 0.5`). */
  ghost predicate AllTails(draws: nat -> nat)
  {
    forall i: nat :: !Heads(draws(i))
  }

  /** With every draw tails, the merge as written emits `right[0]` once more on each level
      from `depth` up to `MaxDepth`, on top of every song of both inputs. */
  lemma {:induction false} MergeAsWrittenAllTails<T>(left: seq<T>, right: seq<T>, depth: nat, draws: nat -> nat, p: nat)
    requires AllTails(draws) && left != [] && right != [] && depth <= MaxDepth + 1
    ensures |MergeAsWritten(left, right, depth, draws, p).0| == |left| + |right| + (MaxDepth + 1 - depth)
    decreases MaxDepth + 1 - depth
  {
    if depth > MaxDepth {
      FallbackInterleaves(left, right, draws, p);
      InterleavingCounts(Fallback(left, right, draws, p).0, left, right);
    } else {
      assert !Heads(draws(p));
      MergeAsWrittenAllTails(left, right, depth + 1, draws, p + 1);
    }
  }

  /** The smallest instance: one song on each side at depth 50 and two tails give the
      right-hand song twice. */
  lemma MergeAsWrittenRepeats()
    ensures MergeAsWritten([1], [2], MaxDepth, (d: nat) => 1, 0).0 == [2, 2, 1]
  {
    var tails := (d: nat) => 1;
    assert !Heads(tails(0)) && !Heads(tails(1));
    assert [2][1..] == [] && [1] + [] == [1];
    assert Fallback([1], [], tails, 2) == ([1], 2);
    assert Fallback([1], [2], tails, 1) == ([2] + Fallback([1], [2][1..], tails, 2).0, 2);
    assert [2] + [1] == [2, 1] && [2] + [2, 1] == [2, 2, 1];
  }

  // ---------------------------------------------------------------------------
  // The shuffle

  /** `random.sample(s, len(s))`: each draw picks one of the songs not yet chosen. */
  function Sample<T>(s: seq<T>, draws: nat -> nat, p: nat): (r: (seq<T>, nat))
    ensures |r.0| == |s| && multiset(r.0) == multiset(s)
    decreases |s|
  {
    if s == [] then ([], p)
    else
      var i := draws(p) % |s|;
      assert s == s[..i] + [s[i]] + s[i + 1..];
      var rest := Sample(s[..i] + s[i + 1..], draws, p + 1);
      ([s[i]] + rest.0, rest.1)
  }

  /** `recursive_shuffle_playlist`: beyond `MaxDepth` a random permutation; one song or none
      as given; two songs kept or swapped on one draw; otherwise the halves split at
      `|s| / 2` are shuffled one level deeper and merged one level deeper, by the merge as
      written when `asWritten` holds and by the corrected merge otherwise. */
  function Shuffle<T>(s: seq<T>, depth: nat, draws: nat -> nat, p: nat, asWritten: bool)
    : (r: (seq<T>, nat))
    ensures |r.0| >= |s|
    ensures !asWritten ==> |r.0| == |s|
    decreases |s|
  {
    if depth > MaxDepth then Sample(s, draws, p)
    else if |s| <= 1 then (s, p)
    else if |s| == 2 then (if Heads(draws(p)) then s else [s[1], s[0]], p + 1)
    else
      var mid := |s| / 2;
      var l := Shuffle(s[..mid], depth + 1, draws, p, asWritten);
      var r := Shuffle(s[mid..], depth + 1, draws, l.1, asWritten);
      if asWritten then MergeAsWritten(l.0, r.0, depth + 1, draws, r.1)
      else Merge(l.0, r.0, depth + 1, draws, r.1)
  }

  /** The base cases, in both versions: at most one song comes back as given, two come
      back as given or swapped, and beyond `MaxDepth` the result is a permutation. */
  lemma ShuffleBaseCases<T>(s: seq<T>, depth: nat, draws: nat -> nat, p: nat, asWritten: bool)
    ensures var r := Shuffle(s, depth, draws, p, asWritten).0;
            (depth <= MaxDepth && |s| <= 1 ==> r == s)
            && (depth <= MaxDepth && |s| == 2 ==> r == s || r == [s[1], s[0]])
            && (depth > MaxDepth ==> |r| == |s| && multiset(r) == multiset(s))
  {
  }

  /** With the corrected merge the shuffle is a permutation at every depth. */
  lemma {:induction false} ShufflePermutes<T>(s: seq<T>, depth: nat, draws: nat -> nat, p: nat)
    ensures var r := Shuffle(s, depth, draws, p, false).0;
            |r| == |s| && multiset(r) == multiset(s)
    decreases |s|
  {
    if depth > MaxDepth {
      assert Shuffle(s, depth, draws, p, false) == Sample(s, draws, p);
    } else if |s| <= 1 {
      assert Shuffle(s, depth, draws, p, false).0 == s;
    } else if |s| == 2 {
      var r := Shuffle(s, depth, draws, p, false).0;
      assert r == s || r == [s[1], s[0]];
      SwapPermutes(s);
    } else {
      var mid := |s| / 2;
      var l := Shuffle(s[..mid], depth + 1, draws, p, false);
      var r := Shuffle(s[mid..], depth + 1, draws, l.1, false);
      var m := Merge(l.0, r.0, depth + 1, draws, r.1).0;
      assert Shuffle(s, depth, draws, p, false).0 == m;
      ShufflePermutes(s[..mid], depth + 1, draws, p);
      ShufflePermutes(s[mid..], depth + 1, draws, l.1);
      MergeInterleaves(l.0, r.0, depth + 1, draws, r.1);
      HalvesMerged(s, mid, l.0, r.0, m);
    }
  }

  lemma SwapPermutes<T>(s: seq<T>)
    requires |s| == 2
    ensures multiset([s[1], s[0]]) == multiset(s)
  {
    assert [s[1], s[0]] == [s[1]] + [s[0]] && s == [s[0]] + [s[1]];
  }

  /** Interleaving permutations of the two halves of `s` gives a permutation of `s`. */
  lemma HalvesMerged<T>(s: seq<T>, mid: nat, l: seq<T>, r: seq<T>, m: seq<T>)
    requires mid <= |s|
    requires |l| == mid && multiset(l) == multiset(s[..mid])
    requires |r| == |s| - mid && multiset(r) == multiset(s[mid..])
    requires IsInterleaving(m, l, r)
    ensures |m| == |s| && multiset(m) == multiset(s)
  {
    InterleavingCounts(m, l, r);
    assert s == s[..mid] + s[mid..];
  }

  /** As written, the shuffle still loses no song and invents none: every song of `s` is in
      the result at least as often as in `s`, and the result holds nothing else. */
  lemma {:induction false} ShuffleAsWrittenKeeps<T>(s: seq<T>, depth: nat, draws: nat -> nat, p: nat)
    ensures var r := Shuffle(s, depth, draws, p, true).0;
            multiset(s) <= multiset(r) && forall x :: x in r ==> x in s
    decreases |s|
  {
    if depth > MaxDepth {
      assert Shuffle(s, depth, draws, p, true) == Sample(s, draws, p);
      var r := Sample(s, draws, p).0;
      forall x | x in r ensures x in s {
        assert x in multiset(r);
      }
    } else if |s| <= 1 {
      assert Shuffle(s, depth, draws, p, true).0 == s;
    } else if |s| == 2 {
      var r := Shuffle(s, depth, draws, p, true).0;
      assert r == s || r == [s[1], s[0]];
      SwapPermutes(s);
      forall x | x in r ensures x in s {
        assert x in multiset(r);
      }
    } else {
      var mid := |s| / 2;
      var l := Shuffle(s[..mid], depth + 1, draws, p, true);
      var r := Shuffle(s[mid..], depth + 1, draws, l.1, true);
      var m := MergeAsWritten(l.0, r.0, depth + 1, draws, r.1).0;
      assert Shuffle(s, depth, draws, p, true).0 == m;
      ShuffleAsWrittenKeeps(s[..mid], depth + 1, draws, p);
      ShuffleAsWrittenKeeps(s[mid..], depth + 1, draws, l.1);
      MergeAsWrittenCovers(l.0, r.0, depth + 1, draws, r.1);
      HalvesCovered(s, mid, l.0, r.0, m);
    }
  }

  /** Merging supersets of the two halves of `s` that hold nothing else, into a result that
      covers both and holds nothing else, covers `s` and holds nothing else. */
  lemma HalvesCovered<T>(s: seq<T>, mid: nat, l: seq<T>, r: seq<T>, m: seq<T>)
    requires mid <= |s|
    requires multiset(s[..mid]) <= multiset(l) && forall x :: x in l ==> x in s[..mid]
    requires multiset(s[mid..]) <= multiset(r) && forall x :: x in r ==> x in s[mid..]
    requires multiset(l) + multiset(r) <= multiset(m) && forall x :: x in m ==> x in l || x in r
    ensures multiset(s) <= multiset(m) && forall x :: x in m ==> x in s
  {
    assert s == s[..mid] + s[mid..];
    assert multiset(s) == multiset(s[..mid]) + multiset(s[mid..]);
  }

  /** As written, three songs shuffled from depth 0 with every draw tails come back as 53:
      the right half `[3, 2]` is merged into `[1]` at depth 1, and its first song is
      emitted fifty extra times. */
  lemma ShuffleAsWrittenGrows()
    ensures |Shuffle([1, 2, 3], 0, (d: nat) => 1, 0, true).0| == 53
  {
    var tails := (d: nat) => 1;
    var s := [1, 2, 3];
    assert s[..1] == [1] && s[1..] == [2, 3];
    assert Shuffle([1], 1, tails, 0, true) == ([1], 0);
    assert Shuffle([2, 3], 1, tails, 0, true) == ([3, 2], 1);
    MergeAsWrittenAllTails([1], [3, 2], 1, tails, 1);
  }
}

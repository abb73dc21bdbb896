/** Generic sequence vocabulary shared by the playlist, queue and library models:
    order-preserving filtering (a Python list comprehension with an `if`), the
    subsequence relation, and a stable sort by a descending integer key (Python's
    `list.sort(key=..., reverse=True)`, which keeps equal keys in their prior order). */
module Seqs {

  /** `r` can be obtained from `s` by deleting elements, keeping the order of the rest. */
  ghost predicate IsSubseq<T>(r: seq<T>, s: seq<T>)
    decreases |s|
  {
    if r == [] then true
    else if s == [] then false
    else (r[0] == s[0] && IsSubseq(r[1..], s[1..])) || IsSubseq(r, s[1..])
  }

  /** The elements of `s` that satisfy `p`, in their order in `s`. */
  function Filter<T>(s: seq<T>, p: T -> bool): (r: seq<T>)
    ensures |r| <= |s|
    ensures forall k :: 0 <= k < |r| ==> p(r[k])
  {
    if s == [] then []
    else
      var rest := Filter(s[1..], p);
      if p(s[0]) then [s[0]] + rest else rest
  }

  /** Filtering keeps the order: the result is a subsequence of the input. */
  lemma {:induction false} FilterIsSubseq<T>(s: seq<T>, p: T -> bool)
    ensures IsSubseq(Filter(s, p), s)
  {
    if s != [] {
      FilterIsSubseq(s[1..], p);
      var rest := Filter(s[1..], p);
      if !p(s[0]) && rest != [] {
        assert IsSubseq(rest, s[1..]);
      }
    }
  }

  /** Filtering keeps exactly the occurrences of the elements that satisfy `p`: together with
      `FilterIsSubseq` this pins the result down completely. */
  lemma {:induction false} FilterCount<T>(s: seq<T>, p: T -> bool, x: T)
    ensures multiset(Filter(s, p))[x] == if p(x) then multiset(s)[x] else 0
  {
    if s != [] {
      FilterCount(s[1..], p, x);
      assert s == [s[0]] + s[1..];
    }
  }

  lemma {:induction false} FilterConcat<T>(a: seq<T>, b: seq<T>, p: T -> bool)
    ensures Filter(a + b, p) == Filter(a, p) + Filter(b, p)
  {
    if a == [] {
      assert a + b == b;
    } else {
      assert (a + b)[1..] == a[1..] + b;
      FilterConcat(a[1..], b, p);
    }
  }

  /** Filtering an accumulated prefix one more element: the shape of an accumulation loop. */
  lemma FilterSnoc<T>(s: seq<T>, i: nat, p: T -> bool)
    requires i < |s|
    ensures Filter(s[..i + 1], p) == Filter(s[..i], p) + (if p(s[i]) then [s[i]] else [])
  {
    assert s[..i + 1] == s[..i] + [s[i]];
    FilterConcat(s[..i], [s[i]], p);
  }

  /** An element of a filter result is an element of the input. */
  lemma FilterMember<T>(s: seq<T>, p: T -> bool, x: T)
    ensures x in Filter(s, p) <==> x in s && p(x)
  {
    var r := Filter(s, p);
    FilterCount(s, p, x);
    assert x in r <==> multiset(r)[x] > 0;
    assert x in s <==> multiset(s)[x] > 0;
  }

  /** Index of the first element satisfying `p`, or `|s|` when there is none. */
  function FirstWhere<T>(s: seq<T>, p: T -> bool): (i: nat)
    ensures i <= |s|
    ensures forall j :: 0 <= j < i ==> !p(s[j])
    ensures i < |s| ==> p(s[i])
  {
    if s == [] then 0
    else if p(s[0]) then 0
    else 1 + FirstWhere(s[1..], p)
  }

  /** `s` back to front. */
  function Reverse<T>(s: seq<T>): seq<T>
  {
    if s == [] then [] else Reverse(s[1..]) + [s[0]]
  }

  /** Sum of an integer measure over a sequence. */
  function SumOf<T>(s: seq<T>, f: T -> int): int
  {
    if s == [] then 0 else f(s[0]) + SumOf(s[1..], f)
  }

  lemma {:induction false} SumOfConcat<T>(a: seq<T>, b: seq<T>, f: T -> int)
    ensures SumOf(a + b, f) == SumOf(a, f) + SumOf(b, f)
  {
    if a == [] {
      assert a + b == b;
    } else {
      assert (a + b)[1..] == a[1..] + b;
      SumOfConcat(a[1..], b, f);
    }
  }

  lemma {:induction false} SumOfUpdate<T>(s: seq<T>, i: nat, x: T, f: T -> int)
    requires i < |s|
    ensures SumOf(s[i := x], f) == SumOf(s, f) - f(s[i]) + f(x)
  {
    if i > 0 {
      SumOfUpdate(s[1..], i - 1, x, f);
      assert s[i := x][1..] == s[1..][i - 1 := x];
    }
  }

  /** Keys are non-increasing from front to back. */
  ghost predicate SortedDesc<T>(s: seq<T>, key: T -> int)
  {
    forall i, j :: 0 <= i < j < |s| ==> key(s[i]) >= key(s[j])
  }

  /** The entries of `s` whose key is exactly `k`, in order: stability is stated on these. */
  function WithKey<T>(s: seq<T>, key: T -> int, k: int): seq<T>
  {
    Filter(s, KeyIs(key, k))
  }

  function KeyIs<T>(key: T -> int, k: int): T -> bool
  {
    (x: T) => key(x) == k
  }

  /** Insert `x` in front of the first entry with a strictly smaller key, i.e. after every
      entry whose key is at least `key(x)`. */
  function InsertDesc<T>(t: seq<T>, x: T, key: T -> int): (r: seq<T>)
    ensures |r| == |t| + 1
    ensures multiset(r) == multiset(t) + multiset{x}
  {
    if t == [] then [x]
    else if key(x) > key(t[0]) then [x] + t
    else
      assert t == [t[0]] + t[1..];
      [t[0]] + InsertDesc(t[1..], x, key)
  }

  lemma {:induction false} InsertDescSorted<T>(t: seq<T>, x: T, key: T -> int)
    requires SortedDesc(t, key)
    ensures SortedDesc(InsertDesc(t, x, key), key)
  {
    if t != [] && key(x) <= key(t[0]) {
      var rest := InsertDesc(t[1..], x, key);
      var r := [t[0]] + rest;
      assert InsertDesc(t, x, key) == r;
      InsertDescSorted(t[1..], x, key);
      InsertDescBounded(t[1..], x, key, key(t[0]));
      SortedCons(t[0], rest, key);
    }
  }

  lemma SortedCons<T>(h: T, rest: seq<T>, key: T -> int)
    requires SortedDesc(rest, key)
    requires forall i :: 0 <= i < |rest| ==> key(rest[i]) <= key(h)
    ensures SortedDesc([h] + rest, key)
  {
    var r := [h] + rest;
    forall i, j | 0 <= i < j < |r| ensures key(r[i]) >= key(r[j]) {
      assert r[j] == rest[j - 1];
      if i > 0 {
        assert r[i] == rest[i - 1];
      }
    }
  }

  /** Inserting an entry whose key is at most `b` among entries whose keys are at most `b`. */
  lemma {:induction false} InsertDescBounded<T>(t: seq<T>, x: T, key: T -> int, b: int)
    requires forall i :: 0 <= i < |t| ==> key(t[i]) <= b
    requires key(x) <= b
    ensures forall i :: 0 <= i < |InsertDesc(t, x, key)| ==> key(InsertDesc(t, x, key)[i]) <= b
  {
    if t != [] && key(x) <= key(t[0]) {
      InsertDescBounded(t[1..], x, key, b);
      var rest := InsertDesc(t[1..], x, key);
      assert InsertDesc(t, x, key) == [t[0]] + rest;
    }
  }

  /** Insertion sort by descending key: the stable sort Python performs. */
  function SortDesc<T>(s: seq<T>, key: T -> int): (r: seq<T>)
    ensures |r| == |s|
    ensures multiset(r) == multiset(s)
    ensures SortedDesc(r, key)
  {
    if s == [] then []
    else
      assert s == s[..|s| - 1] + [s[|s| - 1]];
      var sorted := SortDesc(s[..|s| - 1], key);
      InsertDescSorted(sorted, s[|s| - 1], key);
      InsertDesc(sorted, s[|s| - 1], key)
  }

  lemma WithKeyEmpty<T>(s: seq<T>, key: T -> int, k: int)
    requires forall i :: 0 <= i < |s| ==> key(s[i]) != k
    ensures WithKey(s, key, k) == []
  {
    var r := WithKey(s, key, k);
    if r != [] {
      FilterMember(s, KeyIs(key, k), r[0]);
    }
  }

  /** Inserting into a sorted sequence appends `x` to its own key class and leaves every
      other key class alone. */
  lemma {:induction false} InsertDescStable<T>(t: seq<T>, x: T, key: T -> int, k: int)
    requires SortedDesc(t, key)
    ensures WithKey(InsertDesc(t, x, key), key, k)
         == WithKey(t, key, k) + (if key(x) == k then [x] else [])
  {
    if t == [] {
    } else if key(x) > key(t[0]) {
      FilterConcat([x], t, KeyIs(key, k));
      if key(x) == k {
        WithKeyEmpty(t, key, k);
      }
    } else {
      assert t == [t[0]] + t[1..];
      FilterConcat([t[0]], t[1..], KeyIs(key, k));
      FilterConcat([t[0]], InsertDesc(t[1..], x, key), KeyIs(key, k));
      InsertDescStable(t[1..], x, key, k);
    }
  }

  /** Stability: for every key, the entries with that key appear in the sorted sequence in
      exactly the order they had in the input. */
  lemma {:induction false} SortDescStable<T>(s: seq<T>, key: T -> int, k: int)
    ensures WithKey(SortDesc(s, key), key, k) == WithKey(s, key, k)
  {
    if s != [] {
      var init, last := s[..|s| - 1], s[|s| - 1];
      assert s == init + [last];
      assert SortDesc(s, key) == InsertDesc(SortDesc(init, key), last, key);
      SortDescStable(init, key, k);
      InsertDescStable(SortDesc(init, key), last, key, k);
      FilterConcat(init, [last], KeyIs(key, k));
      assert WithKey([last], key, k) == if key(last) == k then [last] else [];
    }
  }

  /** Sorting an already sorted sequence extended by one entry places the entry after every
      entry whose key is at least its own, and before all others. */
  lemma {:induction false} SortDescSnoc<T>(t: seq<T>, x: T, key: T -> int)
    requires SortedDesc(t, key)
    ensures SortDesc(t + [x], key) == InsertDesc(t, x, key)
  {
    assert (t + [x])[..|t|] == t;
    SortDescOfSorted(t, key);
  }

  lemma {:induction false} SortDescOfSorted<T>(t: seq<T>, key: T -> int)
    requires SortedDesc(t, key)
    ensures SortDesc(t, key) == t
  {
    if t != [] {
      var init, last := t[..|t| - 1], t[|t| - 1];
      assert t == init + [last];
      SortDescOfSorted(init, key);
      InsertDescAtEnd(init, last, key);
    }
  }

  lemma {:induction false} InsertDescAtEnd<T>(t: seq<T>, x: T, key: T -> int)
    requires forall i :: 0 <= i < |t| ==> key(t[i]) >= key(x)
    ensures InsertDesc(t, x, key) == t + [x]
  {
    if t != [] {
      InsertDescAtEnd(t[1..], x, key);
      assert t == [t[0]] + t[1..];
    }
  }

  /** Any measure summed over the entries is unchanged by sorting. */
  lemma {:induction false} SortDescSum<T>(s: seq<T>, key: T -> int, f: T -> int)
    ensures SumOf(SortDesc(s, key), f) == SumOf(s, f)
  {
    if s != [] {
      var init, last := s[..|s| - 1], s[|s| - 1];
      assert s == init + [last];
      SortDescSum(init, key, f);
      InsertDescSum(SortDesc(init, key), last, key, f);
      SumOfConcat(init, [last], f);
    }
  }

  lemma {:induction false} InsertDescSum<T>(t: seq<T>, x: T, key: T -> int, f: T -> int)
    ensures SumOf(InsertDesc(t, x, key), f) == SumOf(t, f) + f(x)
  {
    if t != [] && key(x) <= key(t[0]) {
      InsertDescSum(t[1..], x, key, f);
    }
  }

  /** Python's prefix slice `s[:m]`: the first `m` elements (all of them when `m` is at least
      the length), and for a negative `m` everything but the last `-m` elements. */
  function Take<T>(s: seq<T>, m: int): (r: seq<T>)
    ensures r <= s
    ensures |r| == if m >= 0 then (if m < |s| then m else |s|)
                   else (if |s| + m > 0 then |s| + m else 0)
  {
    if m >= 0 then (if m < |s| then s[..m] else s)
    else (if |s| + m > 0 then s[..|s| + m] else [])
  }
}

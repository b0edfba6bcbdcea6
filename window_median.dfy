/** The shared contract of every window-median engine (the `WindowMedian`
    trait of src/lib.rs), stated over values rather than as an interface:
    a window of capacity `cap` keeps the last `min(cap, n)` of the `n` values
    inserted since it was created or cleared, and its median is the upper
    median of those values. Elements are instantiated as `int`: the trait only
    asks for a total order and copy semantics. */
module WindowMedian {

  datatype Option<T> = None | Some(value: T)

  predicate IsSorted(s: seq<int>) {
    forall i, j :: 0 <= i < j < |s| ==> s[i] <= s[j]
  }

  function Min(a: int, b: int): int {
    if a <= b then a else b
  }

  // ---------------------------------------------------------------------
  // Sorting and the upper median
  // ---------------------------------------------------------------------

  /** A value at most the head of a sorted sequence can go in front of it. */
  lemma SortedCons(a: int, t: seq<int>)
    requires IsSorted(t) && (t != [] ==> a <= t[0])
    ensures IsSorted([a] + t)
  {
    forall i, j | 0 <= i < j < |[a] + t| ensures ([a] + t)[i] <= ([a] + t)[j] {
      if i > 0 {
        assert ([a] + t)[i] == t[i - 1];
      }
      assert ([a] + t)[j] == t[j - 1];
    }
  }

  /** Inserts `x` into the sorted sequence `s` before the first element not
      below it. */
  function InsertSorted(s: seq<int>, x: int): (r: seq<int>)
    requires IsSorted(s)
    ensures |r| == |s| + 1
  {
    if s == [] then [x]
    else if x <= s[0] then [x] + s
    else [s[0]] + InsertSorted(s[1..], x)
  }

  /** Insertion keeps the sequence sorted, adds exactly one `x`, and starts
      with either `x` or the old head. */
  lemma {:induction false} InsertSortedSpec(s: seq<int>, x: int)
    requires IsSorted(s)
    ensures IsSorted(InsertSorted(s, x))
    ensures multiset(InsertSorted(s, x)) == multiset(s) + multiset{x}
    ensures InsertSorted(s, x)[0] == x || (s != [] && InsertSorted(s, x)[0] == s[0])
  {
    var r := InsertSorted(s, x);
    if s == [] {
      assert r == [x];
    } else if x <= s[0] {
      assert r == [x] + s;
      SortedCons(x, s);
    } else {
      var t := InsertSorted(s[1..], x);
      assert r == [s[0]] + t;
      InsertSortedSpec(s[1..], x);
      SortedCons(s[0], t);
      assert s == [s[0]] + s[1..];
      assert multiset(s) == multiset{s[0]} + multiset(s[1..]);
      assert multiset(r) == multiset{s[0]} + multiset(t);
    }
  }

  /** The reference sort: the values of `s` in non-decreasing order. */
  function Sort(s: seq<int>): (r: seq<int>)
    ensures IsSorted(r)
    ensures multiset(r) == multiset(s)
  {
    if s == [] then []
    else
      var t := Sort(s[1..]);
      SortStep(s, t);
      InsertSorted(t, s[0])
  }

  /** One step of `Sort`: inserting the head into the sorted tail sorts the
      whole sequence. */
  lemma SortStep(s: seq<int>, t: seq<int>)
    requires s != [] && IsSorted(t) && multiset(t) == multiset(s[1..])
    ensures IsSorted(InsertSorted(t, s[0]))
    ensures multiset(InsertSorted(t, s[0])) == multiset(s)
  {
    InsertSortedSpec(t, s[0]);
    assert s == [s[0]] + s[1..];
    assert multiset(s) == multiset(s[1..]) + multiset{s[0]};
  }

  /** The first element of a sorted sequence is below every value it holds. */
  lemma SortedHeadIsLeast(a: seq<int>, v: int)
    requires IsSorted(a) && v in multiset(a)
    ensures a[0] <= v
  {
    var i :| 0 <= i < |a| && a[i] == v;
  }

  lemma SortedTail(a: seq<int>)
    requires IsSorted(a) && a != []
    ensures IsSorted(a[1..])
    ensures multiset(a[1..]) == multiset(a) - multiset{a[0]}
  {
    assert a == [a[0]] + a[1..];
  }

  lemma SortedSameHead(a: seq<int>, b: seq<int>)
    requires IsSorted(a) && IsSorted(b) && a != [] && b != []
    requires multiset(a) == multiset(b)
    ensures a[0] == b[0]
  {
    assert b[0] in multiset(b);
    assert a[0] in multiset(a);
    SortedHeadIsLeast(a, b[0]);
    SortedHeadIsLeast(b, a[0]);
  }

  /** A sorted sequence is determined by its multiset of values. */
  lemma {:induction false} SortedUnique(a: seq<int>, b: seq<int>)
    requires IsSorted(a) && IsSorted(b)
    requires multiset(a) == multiset(b)
    ensures a == b
  {
    assert |a| == |multiset(a)| == |multiset(b)| == |b|;
    if a != [] {
      SortedSameHead(a, b);
      SortedTail(a);
      SortedTail(b);
      SortedUnique(a[1..], b[1..]);
      assert a == [a[0]] + a[1..];
      assert b == [b[0]] + b[1..];
    }
  }

  /** Taking the oldest value off the front of a history removes one copy of
      it. */
  lemma DropFront(items: seq<int>)
    requires items != []
    ensures multiset(items[1..]) == multiset(items) - multiset{items[0]}
  {
    assert items == [items[0]] + items[1..];
  }

  /** Every sorted rearrangement of `s` is `Sort(s)`. */
  lemma SortIsUnique(s: seq<int>, t: seq<int>)
    requires IsSorted(t) && multiset(t) == multiset(s)
    ensures Sort(s) == t
  {
    SortedUnique(Sort(s), t);
  }

  /** The upper median of a non-empty sequence: the middle element of its
      sorted order, the greater of the two middle elements when the length is
      even. */
  function UpperMedian(s: seq<int>): (m: int)
    requires |s| > 0
    ensures m in s
  {
    var t := Sort(s);
    assert |t| == |multiset(t)| == |s|;
    assert t[|s| / 2] in multiset(s);
    t[|s| / 2]
  }

  /** What `median()` must return for a window holding `s`. */
  function MedianOf(s: seq<int>): (r: Option<int>)
    ensures r.None? <==> s == []
    ensures r.Some? ==> r.value in s
  {
    if s == [] then None else Some(UpperMedian(s))
  }

  /** The upper median of an already sorted sequence is its middle element. */
  lemma SortedUpperMedian(s: seq<int>)
    requires IsSorted(s) && |s| > 0
    ensures UpperMedian(s) == s[|s| / 2]
  {
    SortIsUnique(s, s);
  }

  // ---------------------------------------------------------------------
  // Ranks: the upper median without sorting
  // ---------------------------------------------------------------------

  /** How many elements of `s` are strictly below `m`. */
  function CountBelow(s: seq<int>, m: int): nat {
    if s == [] then 0 else (if s[0] < m then 1 else 0) + CountBelow(s[1..], m)
  }

  /** How many elements of `s` are at most `m`. */
  function CountAtMost(s: seq<int>, m: int): nat {
    if s == [] then 0 else (if s[0] <= m then 1 else 0) + CountAtMost(s[1..], m)
  }

  lemma {:induction false} CountsAppend(a: seq<int>, b: seq<int>, m: int)
    ensures CountBelow(a + b, m) == CountBelow(a, m) + CountBelow(b, m)
    ensures CountAtMost(a + b, m) == CountAtMost(a, m) + CountAtMost(b, m)
  {
    if a != [] {
      assert (a + b)[0] == a[0];
      assert (a + b)[1..] == a[1..] + b;
      CountsAppend(a[1..], b, m);
    } else {
      assert a + b == b;
    }
  }

  /** Taking the element at index `i` out of `b`. */
  lemma CountsRemoveAt(b: seq<int>, i: nat, m: int)
    requires i < |b|
    ensures multiset(b[..i] + b[i + 1..]) == multiset(b) - multiset{b[i]}
    ensures CountBelow(b, m) == (if b[i] < m then 1 else 0) + CountBelow(b[..i] + b[i + 1..], m)
    ensures CountAtMost(b, m) == (if b[i] <= m then 1 else 0) + CountAtMost(b[..i] + b[i + 1..], m)
  {
    var rest := b[..i] + b[i + 1..];
    assert b == b[..i] + ([b[i]] + b[i + 1..]);
    assert multiset(b) == multiset(rest) + multiset{b[i]};
    CountsAppend(b[..i], [b[i]] + b[i + 1..], m);
    CountsAppend([b[i]], b[i + 1..], m);
    CountsAppend(b[..i], b[i + 1..], m);
  }

  /** Counts depend only on the multiset of values. */
  lemma {:induction false} CountsPermutation(a: seq<int>, b: seq<int>, m: int)
    requires multiset(a) == multiset(b)
    ensures CountBelow(a, m) == CountBelow(b, m)
    ensures CountAtMost(a, m) == CountAtMost(b, m)
    decreases |a|
  {
    if a != [] {
      var i := MatchHead(a, b);
      CountsRemoveAt(b, i, m);
      CountsPermutation(a[1..], b[..i] + b[i + 1..], m);
    }
  }

  /** The head of `a` occurs in any rearrangement `b` of it, and removing it
      from both leaves rearrangements of each other. */
  lemma MatchHead(a: seq<int>, b: seq<int>) returns (i: nat)
    requires a != [] && multiset(a) == multiset(b)
    ensures i < |b| && b[i] == a[0]
    ensures multiset(a[1..]) == multiset(b[..i] + b[i + 1..])
  {
    assert a[0] in multiset(b);
    i :| 0 <= i < |b| && b[i] == a[0];
    CountsRemoveAt(b, i, a[0]);
    assert a == [a[0]] + a[1..];
    assert multiset(a) == multiset(a[1..]) + multiset{a[0]};
  }

  /** In a sorted sequence the element at index `k` is the one with at most
      `k` elements below it and more than `k` at or below it. */
  lemma {:induction false} SortedRank(t: seq<int>, k: nat)
    requires IsSorted(t) && k < |t|
    ensures CountBelow(t, t[k]) <= k < CountAtMost(t, t[k])
  {
    var m := t[k];
    assert t == t[..k] + t[k..];
    CountsAppend(t[..k], t[k..], m);
    CountBelowNone(t[k..], m);
    CountAtMostAll(t[..k + 1], m);
    assert t == t[..k + 1] + t[k + 1..];
    CountsAppend(t[..k + 1], t[k + 1..], m);
    CountBound(t[..k], m);
  }

  lemma {:induction false} CountBound(s: seq<int>, m: int)
    ensures CountBelow(s, m) <= |s| && CountAtMost(s, m) <= |s|
  {
    if s != [] { CountBound(s[1..], m); }
  }

  lemma {:induction false} CountBelowNone(s: seq<int>, m: int)
    requires forall i :: 0 <= i < |s| ==> m <= s[i]
    ensures CountBelow(s, m) == 0
  {
    if s != [] { CountBelowNone(s[1..], m); }
  }

  lemma {:induction false} CountAtMostAll(s: seq<int>, m: int)
    requires forall i :: 0 <= i < |s| ==> s[i] <= m
    ensures CountAtMost(s, m) == |s|
  {
    if s != [] { CountAtMostAll(s[1..], m); }
  }

  lemma {:induction false} CountBelowAll(s: seq<int>, m: int)
    requires forall i :: 0 <= i < |s| ==> s[i] < m
    ensures CountBelow(s, m) == |s|
  {
    if s != [] { CountBelowAll(s[1..], m); }
  }

  lemma {:induction false} CountAtMostNone(s: seq<int>, m: int)
    requires forall i :: 0 <= i < |s| ==> m < s[i]
    ensures CountAtMost(s, m) == 0
  {
    if s != [] { CountAtMostNone(s[1..], m); }
  }

  /** A value below the `k`-th element of a sorted sequence has at most `k`
      elements at or below it. */
  lemma BelowRank(t: seq<int>, k: nat, m: int)
    requires IsSorted(t) && k < |t| && m < t[k]
    ensures CountAtMost(t, m) <= k
  {
    assert t == t[..k] + t[k..];
    CountsAppend(t[..k], t[k..], m);
    CountAtMostNone(t[k..], m);
    CountBound(t[..k], m);
  }

  /** A value above the `k`-th element of a sorted sequence has more than `k`
      elements strictly below it. */
  lemma AboveRank(t: seq<int>, k: nat, m: int)
    requires IsSorted(t) && k < |t| && t[k] < m
    ensures k < CountBelow(t, m)
  {
    assert t == t[..k + 1] + t[k + 1..];
    CountsAppend(t[..k + 1], t[k + 1..], m);
    CountBelowAll(t[..k + 1], m);
  }

  /** The upper median is characterised by rank alone: at most `|s|/2`
      elements lie strictly below it and more than `|s|/2` lie at or below it,
      and no other value has that property. */
  lemma UpperMedianRank(s: seq<int>, m: int)
    requires |s| > 0
    ensures m == UpperMedian(s) <==>
              CountBelow(s, m) <= |s| / 2 < CountAtMost(s, m)
  {
    var t := Sort(s);
    var k := |s| / 2;
    assert |t| == |multiset(t)| == |s|;
    assert UpperMedian(s) == t[k];
    CountsPermutation(s, t, m);
    if m == t[k] {
      SortedRank(t, k);
    } else if m < t[k] {
      BelowRank(t, k, m);
    } else {
      AboveRank(t, k, m);
    }
  }

  // ---------------------------------------------------------------------
  // The window
  // ---------------------------------------------------------------------

  /** The last `min(cap, |inputs|)` values of `inputs`, oldest first. */
  function Window(inputs: seq<int>, cap: nat): (w: seq<int>)
    ensures |w| == Min(cap, |inputs|)
    ensures w == inputs[|inputs| - |w|..]
  {
    inputs[|inputs| - Min(cap, |inputs|)..]
  }

  /** The history after the eviction step of `insert`: the oldest value is
      dropped exactly when the window is full. */
  function Evict(history: seq<int>, cap: nat): (h: seq<int>)
    requires cap >= 1 && |history| <= cap
    ensures |h| < cap
    ensures |history| == cap ==> h == history[1..]
    ensures |history| < cap ==> h == history
  {
    if |history| == cap then history[1..] else history
  }

  /** The history after `insert(x)`. */
  function Admit(history: seq<int>, cap: nat, x: int): (h: seq<int>)
    requires cap >= 1 && |history| <= cap
    ensures h == Evict(history, cap) + [x]
    ensures |h| <= cap && h[|h| - 1] == x
  {
    Evict(history, cap) + [x]
  }

  /** Admitting values one at a time keeps exactly the window of the stream:
      this is what makes `insert`'s single eviction sufficient. */
  lemma WindowAdmit(inputs: seq<int>, cap: nat, x: int)
    requires cap >= 1
    ensures Window(inputs + [x], cap) == Admit(Window(inputs, cap), cap, x)
  {
    var w := Window(inputs, cap);
    var n := |inputs|;
    if n < cap {
      assert w == inputs;
    } else {
      assert w == inputs[n - cap..];
      assert Window(inputs + [x], cap) == (inputs + [x])[n + 1 - cap..];
      assert (inputs + [x])[n + 1 - cap..] == inputs[n + 1 - cap..] + [x];
    }
  }

  /** No value repeats inside any window the stream passes through: each
      value is absent from what survives of the window it joins. */
  ghost predicate WindowDistinct(inputs: seq<int>, cap: nat)
    requires cap >= 1
    decreases |inputs|
  {
    inputs == [] ||
    var before := inputs[..|inputs| - 1];
    WindowDistinct(before, cap) &&
    inputs[|inputs| - 1] !in Evict(Window(before, cap), cap)
  }

  /** A value absent from the stream so far is absent from what survives of
      its window. */
  lemma NotInWindow(before: seq<int>, cap: nat, x: int)
    requires cap >= 1 && x !in before
    ensures x !in Evict(Window(before, cap), cap)
  {
    var w := Window(before, cap);
    var e := Evict(w, cap);
    forall k | 0 <= k < |e| ensures e[k] != x {
      var i := if |w| == cap then k + 1 else k;
      assert e[k] == w[i] == before[|before| - |w| + i];
    }
  }

  /** Dropping the last value of a pairwise distinct stream leaves a pairwise
      distinct stream that does not contain it. */
  lemma DistinctPrefix(inputs: seq<int>)
    requires inputs != []
    requires forall i, j :: 0 <= i < j < |inputs| ==> inputs[i] != inputs[j]
    ensures var n := |inputs| - 1;
      && (forall i, j :: 0 <= i < j < n ==> inputs[..n][i] != inputs[..n][j])
      && inputs[n] !in inputs[..n]
  {
    var n := |inputs| - 1;
    forall k | 0 <= k < n ensures inputs[..n][k] != inputs[n] {
      assert inputs[..n][k] == inputs[k];
    }
  }

  /** A stream of pairwise distinct values never repeats a value inside a
      window. */
  lemma {:induction false} DistinctStreamIsWindowDistinct(inputs: seq<int>, cap: nat)
    requires cap >= 1
    requires forall i, j :: 0 <= i < j < |inputs| ==> inputs[i] != inputs[j]
    ensures WindowDistinct(inputs, cap)
    decreases |inputs|
  {
    if inputs != [] {
      var n := |inputs| - 1;
      DistinctPrefix(inputs);
      DistinctStreamIsWindowDistinct(inputs[..n], cap);
      NotInWindow(inputs[..n], cap, inputs[n]);
    }
  }
}

/** The unit tests of src/btree_window.rs and src/vec_window.rs, stated
    against the model: the medians the tests expect are the upper medians
    of the windows the tests build, and methods that drive the engines
    through the tests' loops return exactly the expected medians. */
module MedianExamples {
  import opened WindowMedian
  import opened BTreeEngine
  import opened VecEngine

  /** The consecutive integers `lo, lo + 1, ..., hi - 1`. */
  function Range(lo: int, hi: int): (s: seq<int>)
    requires lo <= hi
    ensures |s| == hi - lo
    ensures forall k :: 0 <= k < |s| ==> s[k] == lo + k
  {
    seq(hi - lo, k => lo + k)
  }

  /** Inserting `hi` after `lo .. hi - 1` gives `lo .. hi`. */
  lemma RangeSnoc(lo: int, hi: int)
    requires lo <= hi
    ensures Range(lo, hi) + [hi] == Range(lo, hi + 1)
  {
  }

  /** The upper median of `lo .. hi - 1` is the integer half-way along. */
  lemma RangeUpperMedian(lo: int, hi: int)
    requires lo < hi
    ensures MedianOf(Range(lo, hi)) == Some(lo + (hi - lo) / 2)
  {
    SortedUpperMedian(Range(lo, hi));
  }

  /** The last `cap` values of a run of consecutive integers. */
  lemma RangeWindow(lo: int, hi: int, cap: nat)
    requires lo <= hi
    ensures Window(Range(lo, hi), cap) == Range(if hi - lo <= cap then lo else hi - cap, hi)
  {
    var r := Range(lo, hi);
    var start := if hi - lo <= cap then lo else hi - cap;
    var w := Window(r, cap);
    assert |w| == hi - start;
    assert forall k :: 0 <= k < |w| ==> w[k] == r[|r| - |w| + k] == start + k;
  }

  /** A run of consecutive integers never repeats a value inside a window,
      and its median is the integer half-way along its last `cap` values. */
  lemma RangeMedian(lo: int, hi: int, cap: nat)
    requires lo < hi && cap >= 1
    ensures WindowDistinct(Range(lo, hi), cap)
    ensures var start := if hi - lo <= cap then lo else hi - cap;
      MedianOf(Window(Range(lo, hi), cap)) == Some(start + (hi - start) / 2)
  {
    DistinctStreamIsWindowDistinct(Range(lo, hi), cap);
    RangeWindow(lo, hi, cap);
    RangeUpperMedian(if hi - lo <= cap then lo else hi - cap, hi);
  }

  /** A short stream of distinct values: every window it passes through is
      free of repeats, and its median is the value of middle rank. */
  lemma DistinctShortStream(inputs: seq<int>, cap: nat, m: int)
    requires 1 <= |inputs| <= cap
    requires forall i, j :: 0 <= i < j < |inputs| ==> inputs[i] != inputs[j]
    requires CountBelow(inputs, m) <= |inputs| / 2 < CountAtMost(inputs, m)
    ensures WindowDistinct(inputs, cap)
    ensures MedianOf(Window(inputs, cap)) == Some(m)
  {
    DistinctStreamIsWindowDistinct(inputs, cap);
    UpperMedianRank(inputs, m);
  }

  // The medians `median` expects after each insert of 6, 1, 5, 3, 2, 4 into
  // a window of capacity 6 (src/btree_window.rs:135-155 and
  // src/vec_window.rs:114-134). The stream has no repeats, so the engines'
  // `Median` contracts give these values for both engines.

  lemma MedianTestStep1()
    ensures WindowDistinct([6], 6) && MedianOf(Window([6], 6)) == Some(6)
  {
    DistinctShortStream([6], 6, 6);
  }

  lemma MedianTestStep2()
    ensures WindowDistinct([6, 1], 6) && MedianOf(Window([6, 1], 6)) == Some(6)
  {
    DistinctShortStream([6, 1], 6, 6);
  }

  lemma MedianTestStep3()
    ensures WindowDistinct([6, 1, 5], 6) && MedianOf(Window([6, 1, 5], 6)) == Some(5)
  {
    DistinctShortStream([6, 1, 5], 6, 5);
  }

  lemma MedianTestStep4()
    ensures WindowDistinct([6, 1, 5, 3], 6) && MedianOf(Window([6, 1, 5, 3], 6)) == Some(5)
  {
    DistinctShortStream([6, 1, 5, 3], 6, 5);
  }

  lemma MedianTestStep5()
    ensures WindowDistinct([6, 1, 5, 3, 2], 6) && MedianOf(Window([6, 1, 5, 3, 2], 6)) == Some(3)
  {
    DistinctShortStream([6, 1, 5, 3, 2], 6, 3);
  }

  lemma MedianTestStep6()
    ensures WindowDistinct([6, 1, 5, 3, 2, 4], 6) && MedianOf(Window([6, 1, 5, 3, 2, 4], 6)) == Some(4)
  {
    DistinctShortStream([6, 1, 5, 3, 2, 4], 6, 4);
  }

  /** `empty_median` (src/btree_window.rs:129-133). */
  method BTreeEmptyMedian() returns (m: Option<int>)
    ensures m == None
  {
    var w := new BTreeWindow(5);
    m := w.Median();
  }

  /** `empty_median` (src/vec_window.rs:108-112). */
  method VecEmptyMedian() returns (m: Option<int>)
    ensures m == None
  {
    var w := new VecWindow(5);
    m := w.Median();
  }

  /** `insert_ascending` (src/btree_window.rs:157-165): 0 to 99 into a window
      of capacity 10. After every insert the halves are ordered and balanced
      (the test's `check_sets`), and the final median is that of 90 to 99. */
  method BTreeInsertAscending() returns (m: Option<int>)
    ensures m == Some(95)
  {
    var w := new BTreeWindow(10);
    var i := 0;
    while i < 100
      invariant 0 <= i <= 100
      invariant w.Valid() && w.cap == 10 && w.inserted == Range(0, i)
      invariant Ordered(w.left, w.right) && Balanced(w.left, w.right)
    {
      w.Insert(i);
      RangeSnoc(0, i);
      i := i + 1;
    }
    RangeMedian(0, 100, 10);
    assert MedianOf(Window(w.inserted, 10)) == Some(95);
    m := w.Median();
  }

  /** `insert_ascending` (src/vec_window.rs:136-144): the buffer stays sorted
      (the test's `assert_sorted`), and the final median is that of 90 to 99. */
  method VecInsertAscending() returns (m: Option<int>)
    ensures m == Some(95)
  {
    var w := new VecWindow(10);
    var i := 0;
    while i < 100
      invariant 0 <= i <= 100
      invariant w.Valid() && w.cap == 10 && w.inserted == Range(0, i)
      invariant IsSorted(w.Contents()) && fresh(w.sorted)
    {
      w.Insert(i);
      RangeSnoc(0, i);
      i := i + 1;
    }
    RangeMedian(0, 100, 10);
    assert MedianOf(Window(w.inserted, 10)) == Some(95);
    m := w.Median();
  }

  /** `clear` (src/vec_window.rs:167-183): 2 to 6 give median 4; after
      `clear` there is no median; 12 to 16 then give median 14. */
  method VecClearTrace() returns (first: Option<int>, cleared: Option<int>, second: Option<int>)
    ensures first == Some(4) && cleared == None && second == Some(14)
  {
    var w := new VecWindow(10);
    var i := 2;
    while i < 7
      invariant 2 <= i <= 7
      invariant w.Valid() && w.cap == 10 && w.inserted == Range(2, i) && fresh(w.sorted)
    {
      w.Insert(i);
      RangeSnoc(2, i);
      i := i + 1;
    }
    RangeMedian(2, 7, 10);
    first := w.Median();
    w.Clear();
    cleared := w.Median();
    i := 12;
    while i < 17
      invariant 12 <= i <= 17
      invariant w.Valid() && w.cap == 10 && w.inserted == Range(12, i) && fresh(w.sorted)
    {
      w.Insert(i);
      RangeSnoc(12, i);
      i := i + 1;
    }
    RangeMedian(12, 17, 10);
    second := w.Median();
  }
}

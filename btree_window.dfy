/** The balanced-set engine (src/btree_window.rs). The window's values are
    split into two ordered sets, `left` (the low half) and `right` (the high
    half), whose sizes differ by at most one, so that the median sits at the
    boundary of the larger set. Alongside them a FIFO `items` records arrival
    order and decides which value is evicted.

    Both halves are SETS, as in the source: a value that occurs twice in the
    window is stored once, and evicting one copy deletes it from the sets. The
    engine's median is therefore proved correct only for streams in which no
    window holds a repeated value (`WindowDistinct`); `DuplicatesBreakMedian`
    shows a stream with repeats on which it answers wrongly. */
module BTreeEngine {
  import opened WindowMedian

  // ---------------------------------------------------------------------
  // Boundaries of an ordered set (BTreeSet's first and last elements)
  // ---------------------------------------------------------------------

  lemma NonEmpty(s: set<int>)
    requires s != {}
    ensures exists y :: y in s
  {
    if forall y :: y !in s { assert false; }
  }

  lemma {:induction false} MaxExists(s: set<int>)
    requires s != {}
    ensures exists m :: m in s && forall y :: y in s ==> y <= m
    decreases |s|
  {
    NonEmpty(s);
    var x :| x in s;
    var rest := s - {x};
    if rest == {} {
      forall y | y in s ensures y <= x {
        assert y !in rest;
      }
      assert x in s;
    } else {
      MaxExists(rest);
      var m :| m in rest && forall y :: y in rest ==> y <= m;
      var top := if x <= m then m else x;
      forall y | y in s ensures y <= top {
        if y != x { assert y in rest; }
      }
      assert top in s;
    }
  }

  lemma {:induction false} MinExists(s: set<int>)
    requires s != {}
    ensures exists m :: m in s && forall y :: y in s ==> m <= y
    decreases |s|
  {
    NonEmpty(s);
    var x :| x in s;
    var rest := s - {x};
    if rest == {} {
      forall y | y in s ensures x <= y {
        assert y !in rest;
      }
      assert x in s;
    } else {
      MinExists(rest);
      var m :| m in rest && forall y :: y in rest ==> m <= y;
      var bottom := if m <= x then m else x;
      forall y | y in s ensures bottom <= y {
        if y != x { assert y in rest; }
      }
      assert bottom in s;
    }
  }

  /** The greatest element of a non-empty set. */
  function SetMax(s: set<int>): (m: int)
    requires s != {}
    ensures m in s && forall y :: y in s ==> y <= m
  {
    MaxExists(s);
    var m :| m in s && forall y :: y in s ==> y <= m; m
  }

  /** The least element of a non-empty set. */
  function SetMin(s: set<int>): (m: int)
    requires s != {}
    ensures m in s && forall y :: y in s ==> m <= y
  {
    MinExists(s);
    var m :| m in s && forall y :: y in s ==> m <= y; m
  }

  // ---------------------------------------------------------------------
  // The two halves
  // ---------------------------------------------------------------------

  /** Every element of the low half is at most every element of the high half. */
  predicate Ordered(left: set<int>, right: set<int>) {
    forall a, b :: a in left && b in right ==> a <= b
  }

  /** The sizes of the halves differ by at most one. */
  predicate Balanced(left: set<int>, right: set<int>) {
    -1 <= |left| - |right| <= 1
  }

  /** The values the two halves hold, counted once per half. */
  function Stored(left: set<int>, right: set<int>): multiset<int> {
    multiset(left) + multiset(right)
  }

  lemma MultisetOfUnion(a: set<int>, b: set<int>)
    ensures multiset(a + b) <= multiset(a) + multiset(b)
    ensures a !! b ==> multiset(a + b) == multiset(a) + multiset(b)
  {
    assert forall v :: multiset(a + b)[v] <= (multiset(a) + multiset(b))[v];
    if a !! b {
      assert forall v :: multiset(a + b)[v] == (multiset(a) + multiset(b))[v];
    }
  }

  lemma MultisetOfDifference(a: set<int>, v: int)
    ensures multiset(a - {v}) == multiset(a) - multiset{v}
  {
    assert forall y :: multiset(a - {v})[y] == (multiset(a) - multiset{v})[y];
  }

  // ---------------------------------------------------------------------
  // Operations on the halves, one function per step of the source
  // ---------------------------------------------------------------------

  /** Moves the `k` greatest elements of `left` into `right`
      (src/btree_window.rs:44-49): what stays in `left` is below everything
      that moved. */
  function MoveGreatest(left: set<int>, right: set<int>, k: nat): (p: (set<int>, set<int>))
    requires k <= |left|
    ensures p.0 <= left && |p.0| == |left| - k
    ensures p.1 == right + (left - p.0)
    ensures forall a, b :: a in p.0 && b in left - p.0 ==> a < b
    decreases k
  {
    if k == 0 then (left, right)
    else
      var e := SetMax(left);
      var p := MoveGreatest(left - {e}, right + {e}, k - 1);
      assert forall b :: b in left - p.0 ==> b == e || b in (left - {e}) - p.0;
      p
  }

  /** Moves the `k` least elements of `right` into `left`
      (src/btree_window.rs:50-55): what stays in `right` is above everything
      that moved. */
  function MoveLeast(left: set<int>, right: set<int>, k: nat): (p: (set<int>, set<int>))
    requires k <= |right|
    ensures p.1 <= right && |p.1| == |right| - k
    ensures p.0 == left + (right - p.1)
    ensures forall a, b :: a in right - p.1 && b in p.1 ==> a < b
    decreases k
  {
    if k == 0 then (left, right)
    else
      var e := SetMin(right);
      var p := MoveLeast(left + {e}, right - {e}, k - 1);
      assert forall a :: a in right - p.1 ==> a == e || a in (right - {e}) - p.1;
      p
  }

  /** Half the size difference, rounded down: how many elements `rebalance`
      moves. */
  function Surplus(left: set<int>, right: set<int>): (k: nat)
    ensures 2 * k <= |left| - |right| || 2 * k <= |right| - |left|
    ensures |left| - |right| <= 2 * k + 1 && |right| - |left| <= 2 * k + 1
  {
    (if |left| >= |right| then |left| - |right| else |right| - |left|) / 2
  }

  /** `rebalance` (src/btree_window.rs:37-57): moves `Surplus` elements across
      the boundary, out of the larger half. The union of the halves is
      unchanged. */
  function Rebalanced(left: set<int>, right: set<int>): (p: (set<int>, set<int>))
    ensures p.0 + p.1 == left + right
  {
    var k := Surplus(left, right);
    if k == 0 then (left, right)
    else if |left| > |right| then MoveGreatest(left, right, k)
    else MoveLeast(left, right, k)
  }

  /** Placement of a new value (src/btree_window.rs:70-86): it joins exactly
      one half, and the halves stay ordered. */
  function Placed(left: set<int>, right: set<int>, x: int): (p: (set<int>, set<int>))
    ensures (p.0 == left + {x} && p.1 == right) || (p.0 == left && p.1 == right + {x})
    ensures Ordered(left, right) ==> Ordered(p.0, p.1)
  {
    if left != {} then
      if x < SetMax(left) then (left + {x}, right) else (left, right + {x})
    else if right != {} then
      if x > SetMin(right) then (left, right + {x}) else (left + {x}, right)
    else
      (left + {x}, right)
  }

  /** Deletion of an evicted value (src/btree_window.rs:30-32): from `left` if
      it is there, otherwise from `right`. One copy of it leaves what the halves
      store. */
  function Evicted(left: set<int>, right: set<int>, v: int): (p: (set<int>, set<int>))
    ensures (p.0 == left - {v} && p.1 == right) || (p.0 == left && p.1 == right - {v})
    ensures Stored(p.0, p.1) == Stored(left, right) - multiset{v}
  {
    MultisetOfDifference(left, v);
    MultisetOfDifference(right, v);
    if v in left then (left - {v}, right) else (left, right - {v})
  }

  /** The median query (src/btree_window.rs:92-107). */
  function SidesMedian(left: set<int>, right: set<int>): (r: Option<int>)
    ensures r.None? <==> left == {} && right == {}
    ensures r.Some? ==> r.value in left + right
  {
    if |left| < |right| then Some(SetMin(right))
    else if |left| > |right| then Some(SetMax(left))
    else if |left| == 0 then None
    else Some(SetMin(right))
  }

  // ---------------------------------------------------------------------
  // Rebalancing keeps the invariants
  // ---------------------------------------------------------------------

  lemma CardUnionBounds(a: set<int>, b: set<int>)
    ensures |a| <= |a + b| <= |a| + |b|
    ensures a !! b ==> |a + b| == |a| + |b|
  {
    assert a + b == a + (b - a);
    assert a !! (b - a);
    assert |b - a| <= |b| by { assert b == (b - a) + (b * a); }
    if a !! b { assert b - a == b; }
  }

  lemma CardDifference(a: set<int>, b: set<int>)
    requires b <= a
    ensures |a - b| == |a| - |b|
  {
    assert a == (a - b) + b;
    assert (a - b) !! b;
  }

  /** Moving the greatest elements of `left` keeps the halves ordered, never
      adds to what they store, and grows `right` by at most `k`: by exactly `k`
      when the halves are disjoint, in which case they stay disjoint. */
  lemma MoveGreatestKeeps(left: set<int>, right: set<int>, k: nat)
    requires k <= |left|
    ensures var p := MoveGreatest(left, right, k);
      && (Ordered(left, right) ==> Ordered(p.0, p.1))
      && Stored(p.0, p.1) <= Stored(left, right)
      && |right| <= |p.1| <= |right| + k
      && (left !! right ==>
            p.0 !! p.1 && Stored(p.0, p.1) == Stored(left, right) && |p.1| == |right| + k)
  {
    var p := MoveGreatest(left, right, k);
    var moved := left - p.0;
    CardDifference(left, p.0);
    CardUnionBounds(right, moved);
    MultisetOfUnion(right, moved);
    MultisetOfUnion(p.0, moved);
    assert left == p.0 + moved;
  }

  /** The mirror image of `MoveGreatestKeeps`. */
  lemma MoveLeastKeeps(left: set<int>, right: set<int>, k: nat)
    requires k <= |right|
    ensures var p := MoveLeast(left, right, k);
      && (Ordered(left, right) ==> Ordered(p.0, p.1))
      && Stored(p.0, p.1) <= Stored(left, right)
      && |left| <= |p.0| <= |left| + k
      && (left !! right ==>
            p.0 !! p.1 && Stored(p.0, p.1) == Stored(left, right) && |p.0| == |left| + k)
  {
    var p := MoveLeast(left, right, k);
    var moved := right - p.1;
    CardDifference(right, p.1);
    CardUnionBounds(left, moved);
    MultisetOfUnion(left, moved);
    MultisetOfUnion(p.1, moved);
    assert right == p.1 + moved;
  }

  /** `rebalance` keeps the halves ordered, never adds to what they store, and
      keeps them disjoint; it balances them when they are disjoint or when they
      differ in size by at most two (the most one removal or one placement can
      cause). */
  lemma RebalanceKeepsInvariants(left: set<int>, right: set<int>)
    ensures var p := Rebalanced(left, right);
      && (Ordered(left, right) ==> Ordered(p.0, p.1))
      && Stored(p.0, p.1) <= Stored(left, right)
      && (left !! right ==> p.0 !! p.1 && Stored(p.0, p.1) == Stored(left, right))
      && (left !! right || -2 <= |left| - |right| <= 2 ==> Balanced(p.0, p.1))
  {
    var k := Surplus(left, right);
    if k != 0 {
      if |left| > |right| {
        MoveGreatestKeeps(left, right, k);
      } else {
        MoveLeastKeeps(left, right, k);
      }
    }
  }

  /** Placing a value adds at most that one value to what the halves store,
      exactly that value when it is new to both halves, and changes the size
      difference by one. */
  lemma PlaceKeepsInvariants(left: set<int>, right: set<int>, x: int)
    ensures var p := Placed(left, right, x);
      && Stored(p.0, p.1) <= Stored(left, right) + multiset{x}
      && (x !in left && x !in right ==>
            Stored(p.0, p.1) == Stored(left, right) + multiset{x}
            && (left !! right ==> p.0 !! p.1))
      && -1 <= (|p.0| - |p.1|) - (|left| - |right|) <= 1
  {
    var p := Placed(left, right, x);
    MultisetOfUnion(left, {x});
    MultisetOfUnion(right, {x});
    CardUnionBounds(left, {x});
    CardUnionBounds(right, {x});
  }

  // ---------------------------------------------------------------------
  // Whole-window state and the `insert` step
  // ---------------------------------------------------------------------

  datatype BState = BState(items: seq<int>, left: set<int>, right: set<int>)

  /** `BTreeWindow::new` (src/btree_window.rs:14-21). */
  function Fresh(): (st: BState)
    ensures st.items == [] && st.left == {} && st.right == {}
  {
    BState([], {}, {})
  }

  /** `remove` (src/btree_window.rs:24-34): nothing happens on an empty
      history; otherwise exactly the front of `items` leaves the history, one
      copy of it leaves the halves, and the halves are rebalanced. */
  function RemoveOldest(st: BState): (r: BState)
    ensures st.items == [] ==> r == st
    ensures st.items != [] ==>
      && r.items == st.items[1..]
      && r.left + r.right == Evicted(st.left, st.right, st.items[0]).0
                             + Evicted(st.left, st.right, st.items[0]).1
  {
    if st.items == [] then st
    else
      var e := Evicted(st.left, st.right, st.items[0]);
      var q := Rebalanced(e.0, e.1);
      BState(st.items[1..], q.0, q.1)
  }

  /** `insert` (src/btree_window.rs:63-89): evict when the history is at
      capacity, append `x` to the history, place it, rebalance. */
  function InsertStep(cap: nat, st: BState, x: int): (r: BState)
    ensures x in r.left + r.right
  {
    var s1 := if |st.items| == cap then RemoveOldest(st) else st;
    var p := Placed(s1.left, s1.right, x);
    var q := Rebalanced(p.0, p.1);
    BState(s1.items + [x], q.0, q.1)
  }

  /** The state after inserting `inputs`, in order, into a new window. */
  function Run(cap: nat, inputs: seq<int>): BState
    decreases |inputs|
  {
    if inputs == [] then Fresh()
    else InsertStep(cap, Run(cap, inputs[..|inputs| - 1]), inputs[|inputs| - 1])
  }

  /** What holds for every stream: the halves are ordered and balanced, and
      every value they store occurs in the history at least as often. */
  ghost predicate Sound(st: BState) {
    && Ordered(st.left, st.right)
    && Balanced(st.left, st.right)
    && Stored(st.left, st.right) <= multiset(st.items)
  }

  /** The halves partition the history exactly. */
  ghost predicate Exact(st: BState) {
    && Ordered(st.left, st.right)
    && Balanced(st.left, st.right)
    && st.left !! st.right
    && Stored(st.left, st.right) == multiset(st.items)
  }

  /** Deleting one value changes the size difference by at most one and
      keeps the halves ordered and disjoint. */
  lemma EvictedKeeps(left: set<int>, right: set<int>, v: int)
    ensures var e := Evicted(left, right, v);
      && -1 <= (|e.0| - |e.1|) - (|left| - |right|) <= 1
      && (Ordered(left, right) ==> Ordered(e.0, e.1))
      && (left !! right ==> e.0 !! e.1)
  {
    if v in left {
      CardDifference(left, {v});
    } else if v in right {
      CardDifference(right, {v});
    } else {
      assert right - {v} == right;
    }
  }

  lemma EvictKeepsSound(st: BState)
    requires Sound(st) && st.items != []
    ensures Sound(RemoveOldest(st))
  {
    var v := st.items[0];
    var e := Evicted(st.left, st.right, v);
    DropFront(st.items);
    EvictedKeeps(st.left, st.right, v);
    assert Stored(e.0, e.1) <= multiset(st.items[1..]);
    RebalanceKeepsInvariants(e.0, e.1);
  }

  lemma EvictKeepsExact(st: BState)
    requires Exact(st) && st.items != []
    ensures Exact(RemoveOldest(st))
  {
    var v := st.items[0];
    var e := Evicted(st.left, st.right, v);
    DropFront(st.items);
    EvictedKeeps(st.left, st.right, v);
    RebalanceKeepsInvariants(e.0, e.1);
  }

  /** Every `insert` keeps the halves ordered and balanced and never lets them
      store a value the history does not hold; the history becomes the old one
      with one eviction at capacity and `x` appended. */
  lemma InsertKeepsSound(cap: nat, st: BState, x: int)
    requires cap >= 1 && |st.items| <= cap && Sound(st)
    ensures InsertStep(cap, st, x).items == Admit(st.items, cap, x)
    ensures Sound(InsertStep(cap, st, x))
  {
    var s1 := if |st.items| == cap then RemoveOldest(st) else st;
    if |st.items| == cap { EvictKeepsSound(st); }
    var p := Placed(s1.left, s1.right, x);
    PlaceKeepsInvariants(s1.left, s1.right, x);
    RebalanceKeepsInvariants(p.0, p.1);
    assert multiset(s1.items + [x]) == multiset(s1.items) + multiset{x};
  }

  /** An `insert` of a value absent from what survives eviction keeps the
      halves an exact partition of the history. */
  lemma InsertKeepsExact(cap: nat, st: BState, x: int)
    requires cap >= 1 && |st.items| <= cap && Exact(st)
    requires x !in Evict(st.items, cap)
    ensures Exact(InsertStep(cap, st, x))
  {
    var s1 := if |st.items| == cap then RemoveOldest(st) else st;
    if |st.items| == cap { EvictKeepsExact(st); }
    assert s1.items == Evict(st.items, cap);
    assert x !in multiset(s1.items);
    assert x !in s1.left && x !in s1.right;
    var p := Placed(s1.left, s1.right, x);
    PlaceKeepsInvariants(s1.left, s1.right, x);
    RebalanceKeepsInvariants(p.0, p.1);
    assert multiset(s1.items + [x]) == multiset(s1.items) + multiset{x};
  }

  /** After any stream the history is the window of the last `cap` inputs and
      the halves are sound. */
  lemma {:induction false} RunIsSound(cap: nat, inputs: seq<int>)
    requires cap >= 1
    ensures Run(cap, inputs).items == Window(inputs, cap)
    ensures Sound(Run(cap, inputs))
    decreases |inputs|
  {
    if inputs != [] {
      var before := inputs[..|inputs| - 1];
      var x := inputs[|inputs| - 1];
      assert before + [x] == inputs;
      RunIsSound(cap, before);
      RunSnoc(cap, before, x);
      SoundStep(cap, before, x, Run(cap, before), Run(cap, inputs));
    }
  }

  /** One `insert` after a sound state whose history is the window of
      `before` gives a sound state whose history is the window of
      `before + [x]`. */
  lemma SoundStep(cap: nat, before: seq<int>, x: int, st: BState, next: BState)
    requires cap >= 1 && Sound(st) && st.items == Window(before, cap)
    requires next == InsertStep(cap, st, x)
    ensures next.items == Window(before + [x], cap)
    ensures Sound(next)
  {
    InsertKeepsSound(cap, st, x);
    WindowAdmit(before, cap, x);
  }

  /** On a stream whose windows never repeat a value, the halves partition the
      window exactly. */
  lemma {:induction false} RunIsExact(cap: nat, inputs: seq<int>)
    requires cap >= 1 && WindowDistinct(inputs, cap)
    ensures Exact(Run(cap, inputs))
    decreases |inputs|
  {
    if inputs != [] {
      var before := inputs[..|inputs| - 1];
      RunIsExact(cap, before);
      RunIsSound(cap, before);
      InsertKeepsExact(cap, Run(cap, before), inputs[|inputs| - 1]);
    }
  }

  // ---------------------------------------------------------------------
  // The median
  // ---------------------------------------------------------------------

  /** The elements of a set in increasing order. */
  ghost function SortedElems(s: set<int>): (t: seq<int>)
    ensures IsSorted(t) && multiset(t) == multiset(s) && |t| == |s|
    ensures forall i :: 0 <= i < |t| ==> t[i] in s
    decreases |s|
  {
    if s == {} then []
    else
      var m := SetMax(s);
      var u := SortedElems(s - {m});
      MultisetOfDifference(s, m);
      assert multiset(u + [m]) == multiset(s - {m}) + multiset{m};
      u + [m]
  }

  /** A set listed in increasing order starts with its least element. */
  lemma SortedElemsFirst(s: set<int>)
    requires s != {}
    ensures SortedElems(s)[0] == SetMin(s)
  {
    var t := SortedElems(s);
    var lo := SetMin(s);
    assert lo in multiset(t);
    var i :| 0 <= i < |t| && t[i] == lo;
    assert t[0] <= t[i] && t[0] in s;
  }

  /** A set listed in increasing order ends with its greatest element. */
  lemma SortedElemsLast(s: set<int>)
    requires s != {}
    ensures SortedElems(s)[|s| - 1] == SetMax(s)
  {
    var t := SortedElems(s);
    var hi := SetMax(s);
    assert hi in multiset(t);
    var j :| 0 <= j < |t| && t[j] == hi;
    assert t[j] <= t[|s| - 1] && t[|s| - 1] in s;
  }

  lemma SortedConcat(lo: seq<int>, hi: seq<int>)
    requires IsSorted(lo) && IsSorted(hi)
    requires forall i, j :: 0 <= i < |lo| && 0 <= j < |hi| ==> lo[i] <= hi[j]
    ensures IsSorted(lo + hi)
  {
  }

  /** Listing the low half, then the high half, in increasing order sorts
      any history the halves partition. */
  lemma HalvesSortHistory(left: set<int>, right: set<int>, s: seq<int>)
    requires Ordered(left, right)
    requires Stored(left, right) == multiset(s)
    ensures Sort(s) == SortedElems(left) + SortedElems(right)
  {
    var lo := SortedElems(left);
    var hi := SortedElems(right);
    forall i, j | 0 <= i < |lo| && 0 <= j < |hi| ensures lo[i] <= hi[j] {
      assert lo[i] in left && hi[j] in right;
    }
    SortedConcat(lo, hi);
    assert multiset(lo + hi) == multiset(lo) + multiset(hi);
    SortIsUnique(s, lo + hi);
  }

  lemma StoredSize(left: set<int>, right: set<int>, s: seq<int>)
    requires Stored(left, right) == multiset(s)
    ensures |s| == |left| + |right|
  {
    assert |s| == |multiset(s)| == |multiset(left)| + |multiset(right)|;
  }

  /** When the low half is the larger, the upper median is its greatest
      element. */
  lemma MiddleInLeft(left: set<int>, right: set<int>, s: seq<int>)
    requires Ordered(left, right) && |left| == |right| + 1
    requires Stored(left, right) == multiset(s)
    ensures s != [] && UpperMedian(s) == SetMax(left)
  {
    StoredSize(left, right, s);
    HalvesSortHistory(left, right, s);
    var lo := SortedElems(left);
    var hi := SortedElems(right);
    SortedElemsLast(left);
    assert |s| / 2 == |lo| - 1;
    assert Sort(s)[|lo| - 1] == lo[|left| - 1];
  }

  /** Otherwise it is the least element of the high half. */
  lemma MiddleInRight(left: set<int>, right: set<int>, s: seq<int>)
    requires Ordered(left, right) && (|right| == |left| || |right| == |left| + 1)
    requires Stored(left, right) == multiset(s) && s != []
    ensures right != {} && UpperMedian(s) == SetMin(right)
  {
    StoredSize(left, right, s);
    HalvesSortHistory(left, right, s);
    var lo := SortedElems(left);
    var hi := SortedElems(right);
    SortedElemsFirst(right);
    assert |s| / 2 == |lo|;
    assert Sort(s)[|lo|] == hi[0];
  }

  /** The boundary rule answers the upper median of any history the halves
      partition: the larger half's boundary, or the high half's least element
      when the halves are the same size. */
  lemma SidesMedianIsUpperMedian(left: set<int>, right: set<int>, s: seq<int>)
    requires Ordered(left, right) && Balanced(left, right)
    requires Stored(left, right) == multiset(s)
    ensures SidesMedian(left, right) == MedianOf(s)
  {
    StoredSize(left, right, s);
    if |left| > |right| {
      MiddleInLeft(left, right, s);
    } else if s != [] {
      MiddleInRight(left, right, s);
    }
  }

  /** The engine's median after any stream whose windows never repeat a value
      is the upper median of the last `min(cap, n)` inputs. */
  lemma BTreeMedianCorrect(cap: nat, inputs: seq<int>)
    requires cap >= 1 && WindowDistinct(inputs, cap)
    ensures var st := Run(cap, inputs);
      SidesMedian(st.left, st.right) == MedianOf(Window(inputs, cap))
  {
    RunIsSound(cap, inputs);
    RunIsExact(cap, inputs);
    var st := Run(cap, inputs);
    SidesMedianIsUpperMedian(st.left, st.right, st.items);
  }

  // The four inserts of `a, a, a, b` into a window of capacity 3.

  lemma RepeatFirst(a: int)
    ensures InsertStep(3, Fresh(), a) == BState([a], {a}, {})
  {
    assert Surplus({a}, {}) == 0;
  }

  lemma RepeatSecond(a: int)
    ensures InsertStep(3, BState([a], {a}, {}), a) == BState([a, a], {a}, {a})
  {
    assert SetMax({a}) == a;
    assert Surplus({a}, {a}) == 0;
  }

  lemma RepeatThird(a: int)
    ensures InsertStep(3, BState([a, a], {a}, {a}), a) == BState([a, a, a], {a}, {a})
  {
    assert SetMax({a}) == a;
    assert {a} + {a} == {a};
    assert Surplus({a}, {a}) == 0;
  }

  lemma RepeatFourth(a: int, b: int)
    requires a < b
    ensures InsertStep(3, BState([a, a, a], {a}, {a}), b) == BState([a, a, b], {a}, {b})
  {
    assert {a} - {a} == {};
    assert Evicted({a}, {a}, a) == ({}, {a});
    assert Surplus({}, {a}) == 0;
    assert RemoveOldest(BState([a, a, a], {a}, {a})) == BState([a, a], {}, {a});
    assert SetMin({a}) == a;
    assert {a} + {b} == {a, b};
    assert Placed({}, {a}, b) == ({}, {a, b});
    assert |{a, b}| == 2;
    assert Surplus({}, {a, b}) == 1;
    assert SetMin({a, b}) == a;
    assert {a, b} - {a} == {b};
    assert MoveLeast({}, {a, b}, 1) == ({a}, {b});
  }

  /** Repeated values break the median: with capacity 3, inserting `a, a, a, b`
      with `a < b` leaves the window `[a, a, b]`, whose upper median is `a`;
      but the halves hold each value once, the first eviction of `a` deleted
      the only stored `a` from the low half, and the engine answers `b`. */
  lemma DuplicatesBreakMedian(a: int, b: int)
    requires a < b
    ensures Run(3, [a, a, a, b]) == BState([a, a, b], {a}, {b})
    ensures SidesMedian({a}, {b}) == Some(b)
    ensures MedianOf(Window([a, a, a, b], 3)) == Some(a)
  {
    RepeatFirst(a);
    RepeatSecond(a);
    RepeatThird(a);
    RepeatFourth(a, b);
    assert Run(3, []) == Fresh();
    RunSnoc(3, [], a);
    assert [] + [a] == [a];
    RunSnoc(3, [a], a);
    assert [a] + [a] == [a, a];
    RunSnoc(3, [a, a], a);
    assert [a, a] + [a] == [a, a, a];
    RunSnoc(3, [a, a, a], b);
    assert [a, a, a] + [b] == [a, a, a, b];
    assert SetMin({b}) == b;
    RepeatWindowMedian(a, b);
  }

  /** The window of `a, a, a, b` at capacity 3 is `[a, a, b]`, median `a`. */
  lemma RepeatWindowMedian(a: int, b: int)
    requires a < b
    ensures MedianOf(Window([a, a, a, b], 3)) == Some(a)
  {
    assert Window([a, a, a, b], 3) == [a, a, b];
    SortIsUnique([a, a, b], [a, a, b]);
  }

  /** Inserting one more value applies one more `InsertStep`. */
  lemma RunSnoc(cap: nat, inputs: seq<int>, x: int)
    ensures Run(cap, inputs + [x]) == InsertStep(cap, Run(cap, inputs), x)
  {
    assert (inputs + [x])[..|inputs|] == inputs;
  }

  /** The state after one more insert is the run of the longer stream: the
      history admits `x` and the halves stay sound. */
  lemma InsertFacts(cap: nat, inputs: seq<int>, before: BState, after: BState, x: int)
    requires cap >= 1 && before == Run(cap, inputs)
    requires after == InsertStep(cap, before, x)
    ensures after == Run(cap, inputs + [x])
    ensures |before.items| <= cap && |after.items| <= cap
    ensures after.items == Admit(before.items, cap, x)
    ensures Sound(after)
  {
    RunSnoc(cap, inputs, x);
    RunIsSound(cap, inputs);
    InsertKeepsSound(cap, before, x);
  }

  // ---------------------------------------------------------------------
  // The engine as the source keeps it: a struct updated in place
  // ---------------------------------------------------------------------

  /** `BTreeWindow` (src/btree_window.rs:5-10). Its `WindowMedian` impl
      provides `insert` and `median` only: the source defines no `clear` and no
      `len` for it. */
  class BTreeWindow {
    const cap: nat
    var items: seq<int>
    var left: set<int>
    var right: set<int>
    /** Every value inserted so far, oldest first. */
    ghost var inserted: seq<int>

    function State(): BState
      reads this
    {
      BState(items, left, right)
    }

    ghost predicate Valid()
      reads this
    {
      cap >= 1 && |items| <= cap && BState(items, left, right) == Run(cap, inserted)
    }

    /** `new` (src/btree_window.rs:14-21). */
    constructor (cap: nat)
      requires cap >= 1
      ensures Valid() && this.cap == cap && inserted == []
      ensures items == [] && left == {} && right == {}
    {
      this.cap := cap;
      items, left, right := [], {}, {};
      inserted := [];
    }

    /** `rebalance` (src/btree_window.rs:37-57). The source first collects the
        `diff` boundary elements and then moves them one by one; moving the
        current boundary element `diff` times moves the same elements. */
    method Rebalance()
      modifies this
      ensures (left, right) == Rebalanced(old(left), old(right))
      ensures items == old(items) && inserted == old(inserted)
    {
      var lsize, rsize := |left|, |right|;
      var diff := (if lsize >= rsize then lsize - rsize else rsize - lsize) / 2;
      if diff == 0 {
        return;
      } else if lsize > rsize {
        ShiftGreatest(diff);
      } else if rsize > lsize {
        ShiftLeast(diff);
      }
    }

    /** The loop of src/btree_window.rs:45-49: the `k` greatest elements of
        the low half move to the high half, one at a time. */
    method ShiftGreatest(k: nat)
      requires k <= |left|
      modifies this
      ensures (left, right) == MoveGreatest(old(left), old(right), k)
      ensures items == old(items) && inserted == old(inserted)
    {
      var i := 0;
      while i < k
        invariant i <= k
        invariant k - i <= |left|
        invariant MoveGreatest(left, right, k - i) == MoveGreatest(old(left), old(right), k)
        invariant items == old(items) && inserted == old(inserted)
      {
        var e := SetMax(left);
        left := left - {e};
        right := right + {e};
        i := i + 1;
      }
    }

    /** The loop of src/btree_window.rs:51-55: the `k` least elements of the
        high half move to the low half, one at a time. */
    method ShiftLeast(k: nat)
      requires k <= |right|
      modifies this
      ensures (left, right) == MoveLeast(old(left), old(right), k)
      ensures items == old(items) && inserted == old(inserted)
    {
      var i := 0;
      while i < k
        invariant i <= k
        invariant k - i <= |right|
        invariant MoveLeast(left, right, k - i) == MoveLeast(old(left), old(right), k)
        invariant items == old(items) && inserted == old(inserted)
      {
        var e := SetMin(right);
        right := right - {e};
        left := left + {e};
        i := i + 1;
      }
    }

    /** `remove` (src/btree_window.rs:24-34). */
    method Remove()
      modifies this
      ensures State() == RemoveOldest(old(State()))
      ensures inserted == old(inserted)
    {
      if items == [] {
        return;
      }
      var v := items[0];
      items := items[1..];
      if v in left {
        left := left - {v};
      } else {
        right := right - {v};
      }
      Rebalance();
    }

    /** `insert` (src/btree_window.rs:63-89). */
    method Insert(x: int)
      requires Valid()
      modifies this
      ensures Valid() && inserted == old(inserted) + [x]
      ensures State() == InsertStep(cap, old(State()), x)
      ensures items == Admit(old(items), cap, x)
      ensures Ordered(left, right) && Balanced(left, right)
      ensures Stored(left, right) <= multiset(items)
    {
      ghost var before := BState(items, left, right);
      inserted := inserted + [x];
      Step(x);
      InsertFacts(cap, old(inserted), before, BState(items, left, right), x);
    }

    /** The body of `insert` on the concrete fields: evict at capacity,
        append, place, rebalance. */
    method Step(x: int)
      modifies this
      ensures State() == InsertStep(cap, old(State()), x)
      ensures inserted == old(inserted)
    {
      ghost var before := State();
      if |items| == cap {
        Remove();
      }
      ghost var s1 := State();
      assert s1 == if |before.items| == cap then RemoveOldest(before) else before;
      items := items + [x];
      Place(x);
      ghost var p := (left, right);
      assert p == Placed(s1.left, s1.right, x);
      Rebalance();
      assert State() == BState(s1.items + [x], Rebalanced(p.0, p.1).0, Rebalanced(p.0, p.1).1);
    }

    /** The placement step of `insert` (src/btree_window.rs:70-86): `x` joins
        the low half when it is below the low half's greatest element (or, with
        the low half empty, not above the high half's least one). */
    method Place(x: int)
      modifies this
      ensures (left, right) == Placed(old(left), old(right), x)
      ensures items == old(items) && inserted == old(inserted)
    {
      if left != {} {
        var lmax := SetMax(left);
        if x < lmax {
          left := left + {x};
        } else {
          right := right + {x};
        }
      } else if right != {} {
        var rmin := SetMin(right);
        if x > rmin {
          right := right + {x};
        } else {
          left := left + {x};
        }
      } else {
        left := left + {x};
      }
    }

    /** `median` (src/btree_window.rs:92-107): `None` exactly when both halves
        are empty; on a stream whose windows never repeat a value, the upper
        median of the last `min(cap, n)` inserted values. */
    function Median(): (m: Option<int>)
      reads this
      requires Valid()
      ensures m.None? <==> left == {} && right == {}
      ensures items == [] ==> m.None?
      ensures WindowDistinct(inserted, cap) ==> m == MedianOf(Window(inserted, cap))
    {
      RunIsSound(cap, inserted);
      assert multiset(items) == multiset{} ==> Stored(left, right) == multiset{};
      assert WindowDistinct(inserted, cap) ==>
        SidesMedian(left, right) == MedianOf(Window(inserted, cap)) by {
        if WindowDistinct(inserted, cap) {
          BTreeMedianCorrect(cap, inserted);
        }
      }
      SidesMedian(left, right)
    }
  }
}

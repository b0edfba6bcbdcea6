/** The sorted-buffer engine of src/vec_window.rs: the history of the window
    in arrival order, plus a buffer of the same values kept in ascending
    order. An insert finds the new value's place by binary search and, when
    the window is full, overwrites or shifts the buffer in place so that the
    evicted value leaves and the new one enters in a single pass. */
module VecEngine {
  import opened WindowMedian

  // ---------------------------------------------------------------------
  // Specification functions on sequences
  // ---------------------------------------------------------------------

  /** `p` splits `s` at `x`: everything before `p` is at most `x`, everything
      from `p` on is at least `x`. */
  predicate IsInsertionPoint(s: seq<int>, p: nat, x: int) {
    p <= |s|
    && (forall k :: 0 <= k < p ==> s[k] <= x)
    && (forall k :: p <= k < |s| ==> x <= s[k])
  }

  /** `s` with `x` placed at index `i`, later elements moved up by one. */
  function InsertAt(s: seq<int>, i: nat, x: int): (r: seq<int>)
    requires i <= |s|
    ensures |r| == |s| + 1 && r[i] == x
  {
    s[..i] + [x] + s[i..]
  }

  /** `s` without its element at index `i`, later elements moved down by one. */
  function RemoveAt(s: seq<int>, i: nat): (r: seq<int>)
    requires i < |s|
    ensures |r| == |s| - 1
  {
    s[..i] + s[i + 1..]
  }

  /** The buffer after the full-window branch of `insert`: the element at
      `rpos` leaves and `x` enters at the place that `ipos` denoted before the
      removal. */
  function Replaced(s: seq<int>, rpos: nat, ipos: nat, x: int): (r: seq<int>)
    requires rpos < |s| && ipos <= |s|
    ensures |r| == |s|
  {
    InsertAt(RemoveAt(s, rpos), if rpos < ipos then ipos - 1 else ipos, x)
  }

  /** The array after `copy_within(from..to, dest)`: the slice `from..to` is
      copied onto `dest..`, all other positions keep their values. */
  function CopiedWithin(s: seq<int>, from: nat, to: nat, dest: nat): (r: seq<int>)
    requires from <= to <= |s| && dest + (to - from) <= |s|
    ensures |r| == |s|
  {
    s[..dest] + s[from..to] + s[dest + (to - from)..]
  }

  /** `CopiedWithin` position by position. */
  lemma CopiedWithinAt(s: seq<int>, from: nat, to: nat, dest: nat)
    requires from <= to <= |s| && dest + (to - from) <= |s|
    ensures forall k :: 0 <= k < |s| && !(dest <= k < dest + (to - from)) ==>
      CopiedWithin(s, from, to, dest)[k] == s[k]
    ensures forall k :: dest <= k < dest + (to - from) ==>
      CopiedWithin(s, from, to, dest)[k] == s[from + k - dest]
  {
  }

  // ---------------------------------------------------------------------
  // Properties of the specification functions
  // ---------------------------------------------------------------------

  /** Inserting at an insertion point keeps a sorted sequence sorted and adds
      exactly one occurrence of `x`. */
  lemma InsertAtKeepsSorted(s: seq<int>, i: nat, x: int)
    requires IsSorted(s) && IsInsertionPoint(s, i, x)
    ensures IsSorted(InsertAt(s, i, x))
    ensures multiset(InsertAt(s, i, x)) == multiset(s) + multiset{x}
  {
    assert s == s[..i] + s[i..];
  }

  /** Removing an element keeps a sorted sequence sorted, takes exactly one
      occurrence of it away, and moves an insertion point past the removed
      index down by one. */
  lemma RemoveAtKeepsSorted(s: seq<int>, i: nat, p: nat, x: int)
    requires IsSorted(s) && i < |s| && IsInsertionPoint(s, p, x)
    ensures IsSorted(RemoveAt(s, i))
    ensures multiset(RemoveAt(s, i)) == multiset(s) - multiset{s[i]}
    ensures IsInsertionPoint(RemoveAt(s, i), if i < p then p - 1 else p, x)
  {
    CountsRemoveAt(s, i, x);
  }

  /** The full-window update keeps the buffer sorted and swaps one occurrence
      of the evicted value for the new one. */
  lemma ReplacedKeepsSorted(s: seq<int>, rpos: nat, ipos: nat, x: int)
    requires IsSorted(s) && rpos < |s| && IsInsertionPoint(s, ipos, x)
    ensures IsSorted(Replaced(s, rpos, ipos, x))
    ensures multiset(Replaced(s, rpos, ipos, x)) == multiset(s) - multiset{s[rpos]} + multiset{x}
  {
    var p := if rpos < ipos then ipos - 1 else ipos;
    RemoveAtKeepsSorted(s, rpos, ipos, x);
    InsertAtKeepsSorted(RemoveAt(s, rpos), p, x);
  }

  /** When the evicted and the new value share a position, the update is a
      single overwrite (`self.sorted[rpos] = x`). */
  lemma ReplacedInPlace(s: seq<int>, pos: nat, x: int)
    requires pos < |s|
    ensures Replaced(s, pos, pos, x) == s[pos := x]
  {
    var d := RemoveAt(s, pos);
    assert d[..pos] == s[..pos] && d[pos..] == s[pos + 1..];
  }

  /** When the evicted value lies left of the insertion point, the update is
      `copy_within(rpos + 1..ipos, rpos)` followed by `sorted[ipos - 1] = x`. */
  lemma ReplacedShiftDown(s: seq<int>, rpos: nat, ipos: nat, x: int)
    requires rpos < ipos <= |s|
    ensures Replaced(s, rpos, ipos, x) == CopiedWithin(s, rpos + 1, ipos, rpos)[ipos - 1 := x]
  {
    var d := RemoveAt(s, rpos);
    assert d[..ipos - 1] == s[..rpos] + s[rpos + 1..ipos];
    assert d[ipos - 1..] == s[ipos..];
  }

  /** When the evicted value lies right of the insertion point, the update is
      `copy_within(ipos..rpos, ipos + 1)` followed by `sorted[ipos] = x`. */
  lemma ReplacedShiftUp(s: seq<int>, rpos: nat, ipos: nat, x: int)
    requires ipos < rpos < |s|
    ensures Replaced(s, rpos, ipos, x) == CopiedWithin(s, ipos, rpos, ipos + 1)[ipos := x]
  {
    var d := RemoveAt(s, rpos);
    assert d[..ipos] == s[..ipos];
    assert d[ipos..] == s[ipos..rpos] + s[rpos + 1..];
  }

  /** The full-window update touches only the span between the two
      positions: an index below both, or above the evicted one and at or past
      the insertion point, keeps its value. */
  lemma ReplacedFrame(s: seq<int>, rpos: nat, ipos: nat, x: int)
    requires rpos < |s| && ipos <= |s|
    ensures forall k :: 0 <= k < |s| && ((k < rpos && k < ipos) || (rpos < k && ipos <= k)) ==>
      Replaced(s, rpos, ipos, x)[k] == s[k]
  {
    var p := if rpos < ipos then ipos - 1 else ipos;
    var r := RemoveAt(s, rpos);
    assert forall k :: 0 <= k < |s| && k < rpos ==> r[k] == s[k];
    assert forall k :: 0 <= k < |r| && rpos <= k ==> r[k] == s[k + 1];
  }

  /** `Vec::insert` on a vector that has room: shifting the tail up by one
      and writing `x` at `i` gives `InsertAt`. */
  lemma InsertAtByShift(s: seq<int>, n: nat, i: nat, x: int)
    requires i <= n < |s|
    ensures CopiedWithin(s, i, n, i + 1)[i := x][..n + 1] == InsertAt(s[..n], i, x)
  {
  }

  // ---------------------------------------------------------------------
  // The two slice primitives the source relies on
  // ---------------------------------------------------------------------

  /** The answer of `binary_search`: `Ok(p)` or `Err(p)`. */
  datatype SearchResult = Found(index: nat) | NotFound(index: nat)

  /** `<[T]>::binary_search` on the first `n` elements of `a`: `Found(p)` with
      `a[p] == x` (any matching index, as the standard library allows), or
      `NotFound(p)` where `p` is the one index that keeps the prefix sorted
      when `x` is inserted there. */
  method BinarySearch(a: array<int>, n: nat, x: int) returns (r: SearchResult)
    requires n <= a.Length && IsSorted(a[..n])
    ensures r.Found? ==> r.index < n && a[r.index] == x
    ensures r.NotFound? ==>
      && r.index <= n
      && (forall k :: 0 <= k < r.index ==> a[k] < x)
      && (forall k :: r.index <= k < n ==> x < a[k])
    ensures r.Found? <==> x in a[..n]
    ensures IsInsertionPoint(a[..n], r.index, x)
  {
    var lo, hi := 0, n;
    while lo < hi
      invariant 0 <= lo <= hi <= n
      invariant forall k :: 0 <= k < lo ==> a[k] < x
      invariant forall k :: hi <= k < n ==> x < a[k]
      decreases hi - lo
    {
      var mid := lo + (hi - lo) / 2;
      if a[mid] < x {
        lo := mid + 1;
      } else if x < a[mid] {
        hi := mid;
      } else {
        assert a[..n][mid] == x;
        return Found(mid);
      }
    }
    r := NotFound(lo);
    assert forall k :: 0 <= k < n ==> a[..n][k] != x;
  }

  /** `<[T]>::copy_within(from..to, dest)`: copies the slice onto `dest..`
      as `memmove` does, walking upwards when the copy moves down and
      downwards when it moves up so that no source element is overwritten
      before it is read. */
  method CopyWithin(a: array<int>, from: nat, to: nat, dest: nat)
    requires from <= to <= a.Length && dest + (to - from) <= a.Length
    modifies a
    ensures a[..] == CopiedWithin(old(a[..]), from, to, dest)
  {
    ghost var s := a[..];
    var len := to - from;
    if dest <= from {
      var i := 0;
      while i < len
        invariant 0 <= i <= len
        invariant forall k :: 0 <= k < a.Length && !(dest <= k < dest + i) ==> a[k] == s[k]
        invariant forall k :: dest <= k < dest + i ==> a[k] == s[from + k - dest]
      {
        a[dest + i] := a[from + i];
        i := i + 1;
      }
    } else {
      var i := len;
      while i > 0
        invariant 0 <= i <= len
        invariant forall k :: 0 <= k < a.Length && !(dest + i <= k < dest + len) ==> a[k] == s[k]
        invariant forall k :: dest + i <= k < dest + len ==> a[k] == s[from + k - dest]
      {
        a[dest + i - 1] := a[from + i - 1];
        i := i - 1;
      }
    }
    CopiedWithinAt(s, from, to, dest);
    assert a[..] == CopiedWithin(s, from, to, dest);
  }

  /** `Vec::insert(ipos, x)` on a vector of length `n` with room for one
      more: the tail moves up by one and `x` takes index `ipos`. */
  method VecInsert(a: array<int>, n: nat, ipos: nat, x: int)
    requires ipos <= n < a.Length
    modifies a
    ensures a[..n + 1] == InsertAt(old(a[..n]), ipos, x)
  {
    ghost var buf := a[..];
    CopyWithin(a, ipos, n, ipos + 1);
    a[ipos] := x;
    InsertAtByShift(buf, n, ipos, x);
  }

  /** The three arms of `match rpos.cmp(&ipos)` in `insert`
      (src/vec_window.rs:41-66) on a full buffer: one overwrite, or one
      `copy_within` and one write. */
  method ShiftReplace(a: array<int>, rpos: nat, ipos: nat, x: int)
    requires rpos < a.Length && ipos <= a.Length
    modifies a
    ensures a[..] == Replaced(old(a[..]), rpos, ipos, x)
  {
    ghost var buf := a[..];
    if rpos == ipos {
      a[rpos] := x;
      ReplacedInPlace(buf, rpos, x);
    } else if rpos < ipos {
      CopyWithin(a, rpos + 1, ipos, rpos);
      a[ipos - 1] := x;
      ReplacedShiftDown(buf, rpos, ipos, x);
    } else {
      CopyWithin(a, ipos, rpos, ipos + 1);
      a[ipos] := x;
      ReplacedShiftUp(buf, rpos, ipos, x);
    }
  }

  /** What the engine keeps true between calls, on values: the history is the
      window of the stream, and the buffer holds the same values in order. */
  ghost predicate Consistent(cap: nat, items: seq<int>, buf: seq<int>, inserted: seq<int>) {
    && |items| <= cap
    && IsSorted(buf)
    && multiset(buf) == multiset(items)
    && items == Window(inserted, cap)
  }

  /** Under `Consistent` the buffer is the sorted history. */
  lemma ConsistentIsSorted(cap: nat, items: seq<int>, buf: seq<int>, inserted: seq<int>)
    requires Consistent(cap, items, buf, inserted)
    ensures buf == Sort(items) && |buf| == |items|
  {
    assert |buf| == |multiset(buf)| == |multiset(items)| == |items|;
    SortIsUnique(items, buf);
  }

  /** The branch of `insert` taken while the window has room keeps the
      engine consistent. */
  lemma RoomStep(cap: nat, items: seq<int>, buf: seq<int>, inserted: seq<int>, ipos: nat, x: int)
    requires cap >= 1 && Consistent(cap, items, buf, inserted) && |items| < cap
    requires IsInsertionPoint(buf, ipos, x)
    ensures Admit(items, cap, x) == items + [x]
    ensures Consistent(cap, items + [x], InsertAt(buf, ipos, x), inserted + [x])
  {
    InsertAtKeepsSorted(buf, ipos, x);
    WindowAdmit(inserted, cap, x);
  }

  /** The branch of `insert` taken on a full window keeps the engine
      consistent, provided `rpos` holds the oldest value. */
  lemma FullStep(cap: nat, items: seq<int>, buf: seq<int>, inserted: seq<int>, rpos: nat, ipos: nat, x: int)
    requires cap >= 1 && Consistent(cap, items, buf, inserted) && |items| == cap
    requires rpos < |buf| && buf[rpos] == items[0] && IsInsertionPoint(buf, ipos, x)
    ensures Admit(items, cap, x) == items[1..] + [x]
    ensures Consistent(cap, items[1..] + [x], Replaced(buf, rpos, ipos, x), inserted + [x])
  {
    ReplacedKeepsSorted(buf, rpos, ipos, x);
    DropFront(items);
    assert multiset(items[1..] + [x]) == multiset(items[1..]) + multiset{x};
    WindowAdmit(inserted, cap, x);
  }

  // ---------------------------------------------------------------------
  // The engine as the source keeps it
  // ---------------------------------------------------------------------

  /** `VecWindow` (src/vec_window.rs:5-9). `items` is the `VecDeque` history
      in arrival order. The `Vec` `sorted`, allocated with room for `cap`
      values and never grown past it, is the array `sorted` together with its
      length `size`. `inserted` is the stream since construction or the last
      `clear`. */
  class VecWindow {
    const cap: nat
    var items: seq<int>
    const sorted: array<int>
    var size: nat
    ghost var inserted: seq<int>

    /** The sorted vector's contents. */
    function Contents(): seq<int>
      reads this, sorted
      requires size <= sorted.Length
    {
      sorted[..size]
    }

    ghost predicate Valid()
      reads this, sorted
    {
      && sorted.Length == cap
      && size == |items| <= cap
      && Consistent(cap, items, Contents(), inserted)
    }

    /** `new` (src/vec_window.rs:14-20). */
    constructor (cap: nat)
      ensures Valid() && this.cap == cap && inserted == []
      ensures items == [] && size == 0 && fresh(sorted)
    {
      this.cap := cap;
      items := [];
      sorted := new int[cap];
      size := 0;
      inserted := [];
    }

    /** `insert` (src/vec_window.rs:26-70): find the new value's place, then
        either insert it (the window has room) or let it take the oldest
        value's place. With `cap == 0` the source's `pop_front().unwrap()`
        panics, hence `cap >= 1`. */
    method Insert(x: int)
      requires Valid() && cap >= 1
      modifies this, sorted
      ensures Valid() && inserted == old(inserted) + [x]
      ensures items == Admit(old(items), cap, x)
      ensures Contents() == Sort(items)
    {
      var found := BinarySearch(sorted, size, x);
      var ipos := found.index;
      if |items| < cap {
        InsertWithRoom(ipos, x);
      } else {
        ReplaceOldest(ipos, x);
      }
      ConsistentIsSorted(cap, items, Contents(), inserted);
    }

    /** `sorted.insert(ipos, x)` and `items.push_back(x)` while the window
        has room (src/vec_window.rs:32-33, 69). */
    method InsertWithRoom(ipos: nat, x: int)
      requires Valid() && cap >= 1 && |items| < cap
      requires IsInsertionPoint(Contents(), ipos, x)
      modifies this, sorted
      ensures Valid() && inserted == old(inserted) + [x]
      ensures items == old(items) + [x] == Admit(old(items), cap, x)
    {
      ghost var s := Contents();
      VecInsert(sorted, size, ipos, x);
      size := size + 1;
      RoomStep(cap, items, s, inserted, ipos, x);
      assert Contents() == InsertAt(s, ipos, x);
      items := items + [x];
      inserted := inserted + [x];
    }

    /** The full-window branch (src/vec_window.rs:34-67, 69): pop the oldest
        value, find it in the buffer, overwrite or shift so that `x` takes
        its place, and push `x`. The oldest value is always in the buffer,
        so the source's `unreachable!` arm is never taken. */
    method ReplaceOldest(ipos: nat, x: int)
      requires Valid() && cap >= 1 && |items| == cap
      requires IsInsertionPoint(Contents(), ipos, x)
      modifies this, sorted
      ensures Valid() && inserted == old(inserted) + [x]
      ensures items == old(items)[1..] + [x] == Admit(old(items), cap, x)
    {
      ghost var s := Contents();
      var oldest := items[0];
      items := items[1..];
      assert oldest in multiset(s);
      var removal := BinarySearch(sorted, size, oldest);
      if removal.NotFound? {
        assert false;
      }
      var rpos := removal.index;
      FullStep(cap, old(items), s, inserted, rpos, ipos, x);
      assert sorted[..] == s;
      ShiftReplace(sorted, rpos, ipos, x);
      assert Contents() == sorted[..];
      items := items + [x];
      inserted := inserted + [x];
    }

    /** `median` (src/vec_window.rs:74-82): the upper median of the window,
        for every stream, duplicates included. */
    function Median(): (m: Option<int>)
      reads this, sorted
      requires Valid()
      ensures m == MedianOf(Window(inserted, cap))
      ensures m.None? <==> Len() == 0
    {
      ConsistentIsSorted(cap, items, Contents(), inserted);
      if size == 0 then None else Some(sorted[size / 2])
    }

    /** `clear` (src/vec_window.rs:85-88): the window forgets its history and
        keeps its capacity. */
    method Clear()
      requires Valid()
      modifies this
      ensures Valid() && inserted == [] && items == [] && size == 0
    {
      items := [];
      size := 0;
      inserted := [];
    }

    /** `len` (src/vec_window.rs:91-93): the number of values in the window,
        the smaller of the capacity and the number inserted. */
    function Len(): (n: nat)
      reads this, sorted
      requires Valid()
      ensures n == Min(cap, |inserted|) && n <= cap
    {
      |items|
    }
  }
}

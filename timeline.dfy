/**
 * Sorting one edge's entries by time, as `path.sort(key=lambda x: x[0])` and
 * `entries.sort(key=lambda x: x['time'])` do. Python's sort is stable, so the
 * result is fully determined: entries ordered by time, and entries with equal
 * times left in the order they arrived in. `SortedByTime` is that result,
 * defined as insertion sort; `SortByTime` computes it in place on an array.
 */
module Timeline {
  import opened Records
  import opened TimeOrder

  /** Every entry's time is `le` the time of every entry after it. */
  ghost predicate SortedBy<T>(s: seq<Entry<T>>, le: (T, T) -> bool) {
    forall i, j :: 0 <= i < j < |s| ==> le(s[i].time, s[j].time)
  }

  /** The entries of `s` whose time is `t`, in their order in `s`. */
  function AtTime<T(==)>(s: seq<Entry<T>>, t: T): seq<Entry<T>> {
    if s == [] then []
    else AtTime(s[..|s| - 1], t) + (if s[|s| - 1].time == t then [s[|s| - 1]] else [])
  }

  /** `x` placed after the last entry of `s` whose time is `le` its own. */
  function Insert<T>(s: seq<Entry<T>>, x: Entry<T>, le: (T, T) -> bool): (r: seq<Entry<T>>)
    ensures |r| == |s| + 1
  {
    if s == [] || le(s[|s| - 1].time, x.time) then s + [x]
    else Insert(s[..|s| - 1], x, le) + [s[|s| - 1]]
  }

  /** The stable sort of `s` by time. */
  function SortedByTime<T>(s: seq<Entry<T>>, le: (T, T) -> bool): (r: seq<Entry<T>>)
    ensures |r| == |s|
  {
    if s == [] then []
    else Insert(SortedByTime(s[..|s| - 1], le), s[|s| - 1], le)
  }

  /** Insertion adds exactly `x`. */
  lemma {:induction false} InsertPermutes<T>(s: seq<Entry<T>>, x: Entry<T>, le: (T, T) -> bool)
    ensures multiset(Insert(s, x, le)) == multiset(s) + multiset{x}
  {
    if s != [] && !le(s[|s| - 1].time, x.time) {
      InsertPermutes(s[..|s| - 1], x, le);
      assert s == s[..|s| - 1] + [s[|s| - 1]];
    }
  }

  /** The sort result is a permutation of its input. */
  lemma {:induction false} SortedByTimePermutes<T>(s: seq<Entry<T>>, le: (T, T) -> bool)
    ensures multiset(SortedByTime(s, le)) == multiset(s)
  {
    if s != [] {
      SortedByTimePermutes(s[..|s| - 1], le);
      InsertPermutes(SortedByTime(s[..|s| - 1], le), s[|s| - 1], le);
      assert s == s[..|s| - 1] + [s[|s| - 1]];
    }
  }

  /** Inserting into a sorted sequence keeps it sorted. */
  lemma {:induction false} InsertSorted<T(!new)>(s: seq<Entry<T>>, x: Entry<T>, le: (T, T) -> bool)
    requires TotalOrder(le) && SortedBy(s, le)
    ensures SortedBy(Insert(s, x, le), le)
  {
    if s == [] || le(s[|s| - 1].time, x.time) {
      var r := s + [x];
      forall i, j | 0 <= i < j < |r| ensures le(r[i].time, r[j].time) {
        if j == |s| && i < |s| - 1 {
          assert le(s[i].time, s[|s| - 1].time);
        }
      }
    } else {
      var init, last := s[..|s| - 1], s[|s| - 1];
      InsertSorted(init, x, le);
      InsertPermutes(init, x, le);
      var r0 := Insert(init, x, le);
      var r := r0 + [last];
      assert le(x.time, last.time);
      assert forall y | y in init :: le(y.time, last.time) by {
        forall y | y in init ensures le(y.time, last.time) {
          var k :| 0 <= k < |init| && init[k] == y;
          assert s[k] == y;
        }
      }
      forall i, j | 0 <= i < j < |r| ensures le(r[i].time, r[j].time) {
        if j == |r0| {
          assert r[i] in multiset(r0);
          assert r[i] in multiset(init) + multiset{x};
        }
      }
    }
  }

  /** Insertion adds `x` to the entries of its own time, after those already there. */
  lemma {:induction false} InsertAtTime<T(!new)>(s: seq<Entry<T>>, x: Entry<T>, le: (T, T) -> bool, t: T)
    requires TotalOrder(le)
    ensures AtTime(Insert(s, x, le), t) == AtTime(s, t) + (if x.time == t then [x] else [])
  {
    if s == [] || le(s[|s| - 1].time, x.time) {
      assert (s + [x])[..|s|] == s;
    } else {
      var init, last := s[..|s| - 1], s[|s| - 1];
      InsertAtTime(init, x, le, t);
      var r0 := Insert(init, x, le);
      assert (r0 + [last])[..|r0|] == r0;
      assert last.time != x.time by {
        assert le(x.time, x.time);
      }
    }
  }

  /** The sort result is ordered by time. */
  lemma {:induction false} SortedByTimeIsSorted<T(!new)>(s: seq<Entry<T>>, le: (T, T) -> bool)
    requires TotalOrder(le)
    ensures SortedBy(SortedByTime(s, le), le)
  {
    if s != [] {
      SortedByTimeIsSorted(s[..|s| - 1], le);
      InsertSorted(SortedByTime(s[..|s| - 1], le), s[|s| - 1], le);
    }
  }

  /** The sort is stable: the entries of each time keep their relative order. */
  lemma {:induction false} SortedByTimeIsStable<T(!new)>(s: seq<Entry<T>>, le: (T, T) -> bool, t: T)
    requires TotalOrder(le)
    ensures AtTime(SortedByTime(s, le), t) == AtTime(s, t)
  {
    if s != [] {
      SortedByTimeIsStable(s[..|s| - 1], le, t);
      InsertAtTime(SortedByTime(s[..|s| - 1], le), s[|s| - 1], le, t);
    }
  }

  /**
   * Where the hole of an insertion ends up: everything from position `j` on
   * is later than `x`, and the entry just before `j` (if any) is not.
   */
  lemma {:induction false} InsertAt<T>(s: seq<Entry<T>>, x: Entry<T>, le: (T, T) -> bool, j: nat)
    requires j <= |s|
    requires forall k :: j <= k < |s| ==> !le(s[k].time, x.time)
    requires j == 0 || le(s[j - 1].time, x.time)
    ensures Insert(s, x, le) == s[..j] + [x] + s[j..]
  {
    if j < |s| {
      var init, last := s[..|s| - 1], s[|s| - 1];
      assert !le(last.time, x.time);
      assert Insert(s, x, le) == Insert(init, x, le) + [last];
      InsertAt(init, x, le, j);
      assert init[..j] == s[..j];
      assert init[j..] + [last] == s[j..];
    } else {
      assert s[..j] == s && s[j..] == [];
    }
  }

  /** Unfolding `SortedByTime` at the last entry of a prefix. */
  lemma SortedByTimeStep<T>(s: seq<Entry<T>>, le: (T, T) -> bool, i: nat)
    requires i < |s|
    ensures SortedByTime(s[..i + 1], le) == Insert(SortedByTime(s[..i], le), s[i], le)
  {
    assert s[..i + 1][..i] == s[..i];
  }

  /** A sequence that agrees with `p` before `j`, holds `x` at `j` and `p` shifted by one after it, is `p` with `x` inserted at `j`. */
  lemma HoleFilled<T>(q: seq<Entry<T>>, p: seq<Entry<T>>, x: Entry<T>, j: nat)
    requires j <= |p| && |q| == |p| + 1
    requires forall k | 0 <= k < j :: q[k] == p[k]
    requires q[j] == x
    requires forall k | j < k < |q| :: q[k] == p[k - 1]
    ensures q == p[..j] + [x] + p[j..]
  {
  }

  /**
   * Shifts right by one every entry of the sorted prefix `a[..i]` that
   * follows the last entry whose time is `le` that of `x`, leaving a hole at `j`.
   */
  method OpenHole<T>(a: array<Entry<T>>, i: nat, x: Entry<T>, le: (T, T) -> bool) returns (j: nat)
    requires i < a.Length
    modifies a
    ensures j <= i
    ensures forall k :: 0 <= k < j ==> a[k] == old(a[k])
    ensures forall k :: j < k <= i ==> a[k] == old(a[k - 1])
    ensures forall k :: j <= k < i ==> !le(old(a[k]).time, x.time)
    ensures j == 0 || le(old(a[j - 1]).time, x.time)
    ensures forall k :: i < k < a.Length ==> a[k] == old(a[k])
  {
    j := i;
    while j > 0 && !le(a[j - 1].time, x.time)
      invariant 0 <= j <= i
      invariant forall k :: 0 <= k < j ==> a[k] == old(a[k])
      invariant forall k :: j < k <= i ==> a[k] == old(a[k - 1])
      invariant forall k :: j <= k < i ==> !le(old(a[k]).time, x.time)
      invariant forall k :: i < k < a.Length ==> a[k] == old(a[k])
    {
      a[j] := a[j - 1];
      j := j - 1;
    }
  }

  /**
   * Moves `a[i]` left past every earlier entry with a later time, so that
   * `a[..i + 1]` becomes the old sorted prefix `a[..i]` with `a[i]` inserted.
   */
  method InsertLast<T>(a: array<Entry<T>>, i: nat, le: (T, T) -> bool)
    requires i < a.Length
    modifies a
    ensures a[..i + 1] == Insert(old(a[..i]), old(a[i]), le)
    ensures forall k | i < k < a.Length :: a[k] == old(a[k])
  {
    ghost var p := a[..i];
    var x := a[i];
    var j := OpenHole(a, i, x, le);
    a[j] := x;
    InsertAt(p, x, le, j);
    HoleFilled(a[..i + 1], p, x, j);
  }

  /** Sorts `a` by time in place, stably (insertion sort). */
  method SortByTime<T>(a: array<Entry<T>>, le: (T, T) -> bool)
    modifies a
    ensures a[..] == SortedByTime(old(a[..]), le)
  {
    ghost var orig := a[..];
    var i := 0;
    while i < a.Length
      invariant 0 <= i <= a.Length
      invariant a[..i] == SortedByTime(orig[..i], le)
      invariant forall k | i <= k < a.Length :: a[k] == orig[k]
    {
      assert a[i] == orig[i];
      InsertLast(a, i, le);
      SortedByTimeStep(orig, le, i);
      i := i + 1;
    }
    assert a[..] == a[..a.Length];
    assert orig == orig[..a.Length];
  }
}

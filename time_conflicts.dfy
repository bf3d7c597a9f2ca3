/**
 * `check_duplicate_times`: the time points of one edge's (unsorted) path that
 * carry two or more distinct states. Times are grouped in a dictionary, so the
 * report lists the conflicting times in the order they first appear.
 */
module TimeConflicts {
  import opened Records

  /** The times that occur in `path`. */
  function TimesOf<T(==)>(path: seq<Entry<T>>): set<T> {
    set e | e in path :: e.time
  }

  /** The distinct states recorded at time `t`. */
  function StatesAt<T(==)>(path: seq<Entry<T>>, t: T): set<int> {
    set e | e in path && e.time == t :: e.state
  }

  /** The times of `path`, each once, in order of first appearance (the dictionary's key order). */
  function DistinctTimes<T(==)>(path: seq<Entry<T>>): (r: seq<T>)
    ensures forall t | t in r :: t in TimesOf(path)
    ensures forall t | t in TimesOf(path) :: t in r
    ensures forall j, k | 0 <= j < k < |r| :: r[j] != r[k]
  {
    if path == [] then []
    else
      var init := path[..|path| - 1];
      assert path == init + [path[|path| - 1]];
      var d := DistinctTimes(init);
      if path[|path| - 1].time in d then d else d + [path[|path| - 1].time]
  }

  /** The report for the times `ts`, in their order: one record per time with two or more states. */
  function Conflicts<T(==)>(ts: seq<T>, path: seq<Entry<T>>): (r: seq<Violation<T>>)
    ensures forall v | v in r :: v.SameTime? && v.time in ts && v.states == StatesAt(path, v.time) && |v.states| >= 2
    ensures forall t | t in ts && |StatesAt(path, t)| >= 2 :: SameTime(t, StatesAt(path, t)) in r
    ensures (forall j, k | 0 <= j < k < |ts| :: ts[j] != ts[k]) ==>
      forall j, k | 0 <= j < k < |r| :: r[j].time != r[k].time
  {
    if ts == [] then []
    else
      var init, t := ts[..|ts| - 1], ts[|ts| - 1];
      assert ts == init + [t];
      var states := StatesAt(path, t);
      Conflicts(init, path) + (if |states| > 1 then [SameTime(t, states)] else [])
  }

  /**
   * The value `check_duplicate_times(path)` returns: a record exactly for each
   * time with at least two distinct states, holding exactly those states, and
   * at most one record per time.
   */
  function SameTimeViolations<T(==)>(path: seq<Entry<T>>): (r: seq<Violation<T>>)
    ensures forall v | v in r ::
      v.SameTime? && v.time in TimesOf(path) && v.states == StatesAt(path, v.time) && |v.states| >= 2
    ensures forall e | e in path && |StatesAt(path, e.time)| >= 2 :: SameTime(e.time, StatesAt(path, e.time)) in r
    ensures forall j, k | 0 <= j < k < |r| :: r[j].SameTime? && r[j].time != r[k].time
  {
    var r := Conflicts(DistinctTimes(path), path);
    assert forall e | e in path :: e.time in TimesOf(path);
    assert forall j | 0 <= j < |r| :: r[j] in r;
    r
  }

  /** Two different states at one time give the time at least two states. */
  lemma TwoStatesAt<T>(path: seq<Entry<T>>, e1: Entry<T>, e2: Entry<T>)
    requires e1 in path && e2 in path && e1.time == e2.time && e1.state != e2.state
    ensures |StatesAt(path, e1.time)| >= 2
  {
    var s := StatesAt(path, e1.time);
    var rest := s - {e1.state};
    assert e2.state in rest;
    assert s == rest + {e1.state};
    assert |rest| >= 1;
  }

  /** A time whose entries all share the state of `e0` has that one state. */
  lemma SingleStateAt<T>(path: seq<Entry<T>>, e0: Entry<T>)
    requires e0 in path
    requires forall e | e in path && e.time == e0.time :: e.state == e0.state
    ensures StatesAt(path, e0.time) == {e0.state}
  {
  }

  /** A time with at least two states holds an entry whose state differs from that of `e0`. */
  lemma OtherStateAt<T>(path: seq<Entry<T>>, e0: Entry<T>) returns (e1: Entry<T>)
    requires e0 in path && |StatesAt(path, e0.time)| >= 2
    ensures e1 in path && e1.time == e0.time && e1.state != e0.state
  {
    if forall e | e in path && e.time == e0.time :: e.state == e0.state {
      SingleStateAt(path, e0);
      assert false;
    }
    e1 :| e1 in path && e1.time == e0.time && e1.state != e0.state;
  }

  /** Entries of `path` that share a time share their state. */
  ghost predicate SingleStatePerTime<T>(path: seq<Entry<T>>) {
    forall e1, e2 | e1 in path && e2 in path && e1.time == e2.time :: e1.state == e2.state
  }

  /** The report is empty exactly when every time of the path carries a single state (an empty path included). */
  lemma NoConflictIff<T>(path: seq<Entry<T>>)
    ensures SameTimeViolations(path) == [] <==> SingleStatePerTime(path)
  {
    var r := SameTimeViolations(path);
    if r != [] {
      var v := r[0];
      assert v in r;
      var e0 :| e0 in path && e0.time == v.time;
      var e1 := OtherStateAt(path, e0);
    }
    if e1, e2 :| e1 in path && e2 in path && e1.time == e2.time && e1.state != e2.state {
      TwoStatesAt(path, e1, e2);
      assert SameTime(e1.time, StatesAt(path, e1.time)) in r;
    }
  }

  /** The position of the first entry of `path` at time `t`. */
  function FirstAt<T(==)>(path: seq<Entry<T>>, t: T): (i: nat)
    requires t in TimesOf(path)
    ensures i < |path| && path[i].time == t
    ensures forall k | 0 <= k < i :: path[k].time != t
  {
    var init := path[..|path| - 1];
    assert path == init + [path[|path| - 1]];
    if t in TimesOf(init) then FirstAt(init, t) else |path| - 1
  }

  /** The dictionary's keys come in the order in which their times first occur in the path. */
  lemma {:induction false} DistinctTimesInFirstAppearanceOrder<T>(path: seq<Entry<T>>)
    ensures forall j, k | 0 <= j < k < |DistinctTimes(path)| ::
      FirstAt(path, DistinctTimes(path)[j]) < FirstAt(path, DistinctTimes(path)[k])
  {
    if path != [] {
      var init, last := path[..|path| - 1], path[|path| - 1];
      assert path == init + [last];
      DistinctTimesInFirstAppearanceOrder(init);
      var d, r := DistinctTimes(init), DistinctTimes(path);
      forall t | t in d ensures FirstAt(path, t) == FirstAt(init, t) {
        assert t in TimesOf(init);
      }
      if last.time !in d {
        assert last.time !in TimesOf(init);
        forall j | 0 <= j < |d| ensures FirstAt(path, r[j]) < FirstAt(path, r[|d|]) {
          assert r[j] == d[j] && d[j] in d;
        }
      }
    }
  }

  /** The times `ts` all occur in `path`, in the order of their first occurrence there. */
  ghost predicate InFirstAppearanceOrder<T>(ts: seq<T>, path: seq<Entry<T>>) {
    && (forall t | t in ts :: t in TimesOf(path))
    && forall j, k | 0 <= j < k < |ts| :: FirstAt(path, ts[j]) < FirstAt(path, ts[k])
  }

  /** Every time before the last one of an ordered list first occurs before it. */
  lemma EarlierFirstAt<T>(ts: seq<T>, path: seq<Entry<T>>, x: T)
    requires ts != [] && InFirstAppearanceOrder(ts, path) && x in ts[..|ts| - 1]
    ensures x in TimesOf(path) && ts[|ts| - 1] in TimesOf(path)
    ensures FirstAt(path, x) < FirstAt(path, ts[|ts| - 1])
  {
    var i :| 0 <= i < |ts| - 1 && ts[i] == x;
    assert ts[|ts| - 1] in ts;
  }

  /** A report keeps the order of the times it is built from. */
  lemma {:induction false} ConflictsKeepOrder<T>(ts: seq<T>, path: seq<Entry<T>>)
    requires InFirstAppearanceOrder(ts, path)
    ensures forall j, k | 0 <= j < k < |Conflicts(ts, path)| ::
      FirstAt(path, Conflicts(ts, path)[j].time) < FirstAt(path, Conflicts(ts, path)[k].time)
  {
    if ts != [] {
      var init, t := ts[..|ts| - 1], ts[|ts| - 1];
      assert ts == init + [t];
      assert InFirstAppearanceOrder(init, path) by {
        assert forall j | 0 <= j < |init| :: init[j] == ts[j];
      }
      ConflictsKeepOrder(init, path);
      var c := Conflicts(init, path);
      if |StatesAt(path, t)| > 1 {
        forall j | 0 <= j < |c| ensures FirstAt(path, c[j].time) < FirstAt(path, t) {
          assert c[j] in c;
          EarlierFirstAt(ts, path, c[j].time);
        }
      }
    }
  }

  /** `check_duplicate_times` lists its records in the order in which their times first occur in the path. */
  lemma SameTimeViolationsInFirstAppearanceOrder<T>(path: seq<Entry<T>>)
    ensures forall j, k | 0 <= j < k < |SameTimeViolations(path)| ::
      FirstAt(path, SameTimeViolations(path)[j].time) < FirstAt(path, SameTimeViolations(path)[k].time)
  {
    DistinctTimesInFirstAppearanceOrder(path);
    assert InFirstAppearanceOrder(DistinctTimes(path), path);
    ConflictsKeepOrder(DistinctTimes(path), path);
  }

  /** The states at `t` grow by one entry at a time. */
  lemma StatesAtSnoc<T>(path: seq<Entry<T>>, i: nat, t: T)
    requires i < |path|
    ensures StatesAt(path[..i + 1], t) ==
      StatesAt(path[..i], t) + (if path[i].time == t then {path[i].state} else {})
  {
    assert path[..i + 1] == path[..i] + [path[i]];
  }

  /** The grouping loop: each time of the path, in order of first appearance, with the set of its states. */
  method GroupStatesByTime<T(==)>(path: seq<Entry<T>>) returns (groups: map<T, set<int>>, keys: seq<T>)
    ensures keys == DistinctTimes(path)
    ensures forall t :: t in groups <==> t in keys
    ensures forall t | t in groups :: groups[t] == StatesAt(path, t)
  {
    groups := map[];
    keys := [];
    var i := 0;
    while i < |path|
      invariant 0 <= i <= |path|
      invariant keys == DistinctTimes(path[..i])
      invariant forall t :: t in groups <==> t in keys
      invariant forall t | t in groups :: groups[t] == StatesAt(path[..i], t)
    {
      var t, s := path[i].time, path[i].state;
      assert path[..i + 1][..i] == path[..i];
      if t !in groups {
        groups := groups[t := {}];
        keys := keys + [t];
      }
      groups := groups[t := groups[t] + {s}];
      forall u | u in groups ensures groups[u] == StatesAt(path[..i + 1], u) {
        StatesAtSnoc(path, i, u);
      }
      i := i + 1;
    }
    assert path[..i] == path;
  }

  /** Groups the path's states by time, then reports the times with more than one state. */
  method CheckDuplicateTimes<T(==)>(path: seq<Entry<T>>) returns (violations: seq<Violation<T>>)
    ensures violations == SameTimeViolations(path)
  {
    var groups, keys := GroupStatesByTime(path);
    violations := [];
    var k := 0;
    while k < |keys|
      invariant 0 <= k <= |keys|
      invariant violations == Conflicts(keys[..k], path)
    {
      var t := keys[k];
      var states := groups[t];
      assert keys[..k + 1][..k] == keys[..k];
      if |states| > 1 {
        violations := violations + [SameTime(t, states)];
      }
      k := k + 1;
    }
    assert keys[..k] == keys;
  }
}

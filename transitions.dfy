/**
 * The transition scan both validators run over an edge's time-sorted entries:
 * every neighbouring pair whose states differ and whose ordered state pair is
 * not an allowed move is reported, in position order.
 */
module Transitions {
  import opened Records
  import opened Timeline

  /** Pair `i` (entries `i` and `i + 1`) changes state by a move that is not allowed. */
  predicate Flagged<T>(p: seq<Entry<T>>, valid: set<(int, int)>, i: int)
    requires 0 <= i < |p| - 1
  {
    p[i].state != p[i + 1].state && (p[i].state, p[i + 1].state) !in valid
  }

  /** The record reported for pair `i`. */
  function ViolationAt<T>(p: seq<Entry<T>>, i: int): Violation<T>
    requires 0 <= i < |p| - 1
  {
    Transition(p[i].time, p[i + 1].time, p[i].state, p[i + 1].state)
  }

  /** The violations of `p`, one per flagged pair, in position order. */
  function TransitionViolations<T>(p: seq<Entry<T>>, valid: set<(int, int)>): (r: seq<Violation<T>>)
    ensures |r| <= if p == [] then 0 else |p| - 1
    ensures forall v | v in r :: v.Transition? && v.fromState != v.toState && (v.fromState, v.toState) !in valid
  {
    if |p| < 2 then []
    else
      var n := |p| - 2;
      TransitionViolations(p[..n + 1], valid) + (if Flagged(p, valid, n) then [ViolationAt(p, n)] else [])
  }

  /** The flagged positions of `p`, in increasing order. */
  ghost function FlaggedPositions<T>(p: seq<Entry<T>>, valid: set<(int, int)>): (r: seq<int>)
    ensures forall i :: i in r <==> 0 <= i < |p| - 1 && Flagged(p, valid, i)
    ensures forall k | 0 <= k < |r| :: 0 <= r[k] < |p| - 1
    ensures forall k, l | 0 <= k < l < |r| :: r[k] < r[l]
  {
    if |p| < 2 then []
    else
      var n := |p| - 2;
      var q := p[..n + 1];
      assert forall i | 0 <= i < n :: Flagged(q, valid, i) == Flagged(p, valid, i);
      FlaggedPositions(q, valid) + (if Flagged(p, valid, n) then [n] else [])
  }

  /** The k-th violation is the record of the k-th flagged pair. */
  lemma {:induction false} TransitionViolationsAreFlaggedPairs<T>(p: seq<Entry<T>>, valid: set<(int, int)>)
    ensures |TransitionViolations(p, valid)| == |FlaggedPositions(p, valid)|
    ensures forall k | 0 <= k < |FlaggedPositions(p, valid)| ::
      0 <= FlaggedPositions(p, valid)[k] < |p| - 1
      && TransitionViolations(p, valid)[k] == ViolationAt(p, FlaggedPositions(p, valid)[k])
  {
    if |p| >= 2 {
      var n := |p| - 2;
      var q := p[..n + 1];
      TransitionViolationsAreFlaggedPairs(q, valid);
      var fq := FlaggedPositions(q, valid);
      forall k | 0 <= k < |fq| ensures ViolationAt(q, fq[k]) == ViolationAt(p, fq[k]) {
        assert fq[k] in fq;
        assert q[fq[k]] == p[fq[k]] && q[fq[k] + 1] == p[fq[k] + 1];
      }
    }
  }

  /** Pair `i` is reported if and only if it is flagged. */
  lemma TransitionReportedIff<T>(p: seq<Entry<T>>, valid: set<(int, int)>, i: int)
    requires 0 <= i < |p| - 1
    ensures ViolationAt(p, i) in TransitionViolations(p, valid) <==> Flagged(p, valid, i)
  {
    TransitionViolationsAreFlaggedPairs(p, valid);
    var r, f := TransitionViolations(p, valid), FlaggedPositions(p, valid);
    if Flagged(p, valid, i) {
      var k :| 0 <= k < |f| && f[k] == i;
      assert r[k] == ViolationAt(p, i);
    }
    if ViolationAt(p, i) in r {
      var k :| 0 <= k < |r| && r[k] == ViolationAt(p, i);
      assert f[k] in f;
      assert Flagged(p, valid, f[k]);
    }
  }

  /** No pair of `p` is flagged. */
  ghost predicate NoneFlagged<T>(p: seq<Entry<T>>, valid: set<(int, int)>) {
    forall i | 0 <= i < |p| - 1 :: !Flagged(p, valid, i)
  }

  /** A path has no violations exactly when none of its pairs is flagged. */
  lemma NoViolationIff<T>(p: seq<Entry<T>>, valid: set<(int, int)>)
    ensures TransitionViolations(p, valid) == [] <==> NoneFlagged(p, valid)
  {
    TransitionViolationsAreFlaggedPairs(p, valid);
    var f := FlaggedPositions(p, valid);
    if f != [] {
      assert f[0] in f;
    }
  }

  /** Along a time-sorted path every violation starts no later than it ends. */
  lemma {:induction false} TransitionTimesOrdered<T>(p: seq<Entry<T>>, valid: set<(int, int)>, le: (T, T) -> bool)
    requires SortedBy(p, le)
    ensures forall v | v in TransitionViolations(p, valid) :: le(v.timeStart, v.timeEnd)
  {
    if |p| >= 2 {
      var n := |p| - 2;
      TransitionTimesOrdered(p[..n + 1], valid, le);
    }
  }

  /** A path that never changes state has no violations. */
  lemma {:induction false} SteadyPathIsValid<T>(p: seq<Entry<T>>, valid: set<(int, int)>)
    requires forall i | 0 <= i < |p| - 1 :: p[i].state == p[i + 1].state
    ensures TransitionViolations(p, valid) == []
  {
    if |p| >= 2 {
      SteadyPathIsValid(p[..|p| - 1], valid);
    }
  }

  /** The index loop over `range(len(path) - 1)`. */
  method ScanTransitions<T>(path: array<Entry<T>>, valid: set<(int, int)>) returns (violations: seq<Violation<T>>)
    ensures violations == TransitionViolations(path[..], valid)
  {
    violations := [];
    var i := 0;
    while i < path.Length - 1
      invariant 0 <= i && (path.Length == 0 || i < path.Length)
      invariant violations == TransitionViolations(path[..if path.Length == 0 then 0 else i + 1], valid)
    {
      var current := path[i].state;
      var next := path[i + 1].state;
      ghost var q := path[..i + 2];
      assert q[..i + 1] == path[..i + 1];
      if current != next {
        if (current, next) !in valid {
          violations := violations + [Transition(path[i].time, path[i + 1].time, current, next)];
        }
      }
      i := i + 1;
    }
    assert path[..] == path[..if path.Length == 0 then 0 else i + 1];
  }
}

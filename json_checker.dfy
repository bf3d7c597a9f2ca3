/**
 * `load_and_validate_migrations_v2`: the nested flow. Each input record holds
 * one edge id and that edge's entries list; the validator sorts each list in
 * place by numeric time, scans it for transitions the adjacency matrix does
 * not allow, and writes the edge into the result only when something was
 * found. The same-time check is not part of this flow.
 */
module JsonChecker {
  import opened Records
  import opened TimeOrder
  import opened Timeline
  import opened Adjacency
  import opened Transitions
  import opened Reporting

  /** One record of the nested input; `entries` is the list that gets sorted in place. */
  datatype EdgeRecord = EdgeRecord(edgeId: int, entries: array<Entry<real>>)

  /** What an edge record holds, as a value. */
  datatype EdgePath = EdgePath(edgeId: int, entries: seq<Entry<real>>)

  /** The transition violations of one record, once its entries are sorted. */
  function PathViolations(p: EdgePath, valid: set<(int, int)>): seq<Violation<real>> {
    TransitionViolations(SortedByTime(p.entries, RealLe), valid)
  }

  /** After `entries.sort`, a record's entries are in non-decreasing time and are a permutation of the input. */
  lemma SortedEntries(entries: seq<Entry<real>>)
    ensures SortedBy(SortedByTime(entries, RealLe), RealLe)
    ensures multiset(SortedByTime(entries, RealLe)) == multiset(entries)
  {
    RealLeIsTotalOrder();
    SortedByTimeIsSorted(entries, RealLe);
    SortedByTimePermutes(entries, RealLe);
  }

  /** Every reported violation starts no later than it ends. */
  lemma ViolationTimesOrdered(p: EdgePath, valid: set<(int, int)>)
    ensures forall v | v in PathViolations(p, valid) :: v.Transition? && v.timeStart <= v.timeEnd
  {
    SortedEntries(p.entries);
    TransitionTimesOrdered(SortedByTime(p.entries, RealLe), valid, RealLe);
  }

  /** Each record's edge id with its violations, in record order. */
  function Outcomes(paths: seq<EdgePath>, valid: set<(int, int)>): (r: seq<(int, seq<Violation<real>>)>)
    ensures |r| == |paths|
  {
    if paths == [] then []
    else
      var p := paths[|paths| - 1];
      Outcomes(paths[..|paths| - 1], valid) + [(p.edgeId, PathViolations(p, valid))]
  }

  /** The k-th outcome is the k-th record's edge id with that record's violations. */
  lemma {:induction false} OutcomesAt(paths: seq<EdgePath>, valid: set<(int, int)>)
    ensures forall k | 0 <= k < |paths| :: Outcomes(paths, valid)[k] == (paths[k].edgeId, PathViolations(paths[k], valid))
  {
    if paths != [] {
      var init := paths[..|paths| - 1];
      OutcomesAt(init, valid);
      assert forall k | 0 <= k < |init| :: paths[k] == init[k];
    }
  }

  /** An edge id is a key of the result exactly when some record with that id has violations. */
  lemma WrittenRecordKeys(paths: seq<EdgePath>, valid: set<(int, int)>, e: int)
    ensures e in Written(Outcomes(paths, valid)) <==>
      exists k :: 0 <= k < |paths| && paths[k].edgeId == e && PathViolations(paths[k], valid) != []
  {
    var outcomes := Outcomes(paths, valid);
    OutcomesAt(paths, valid);
    WrittenKeys(outcomes, e);
    if k :| 0 <= k < |paths| && paths[k].edgeId == e && PathViolations(paths[k], valid) != [] {
      assert outcomes[k].0 == e && outcomes[k].1 != [];
    }
  }

  /**
   * A key maps to the violations of the last record with that id that has
   * any; every later record with that id has none.
   */
  lemma WrittenRecordLastWins(paths: seq<EdgePath>, valid: set<(int, int)>, e: int)
    requires e in Written(Outcomes(paths, valid))
    ensures exists k :: (
      && 0 <= k < |paths| && paths[k].edgeId == e && PathViolations(paths[k], valid) != []
      && Written(Outcomes(paths, valid))[e] == PathViolations(paths[k], valid)
      && forall j | k < j < |paths| && paths[j].edgeId == e :: PathViolations(paths[j], valid) == [])
  {
    var outcomes := Outcomes(paths, valid);
    OutcomesAt(paths, valid);
    WrittenLastWins(outcomes, e);
    var k :| LastWritten(outcomes, e, k) && Written(outcomes)[e] == outcomes[k].1;
    forall j | k < j < |paths| && paths[j].edgeId == e ensures PathViolations(paths[j], valid) == [] {
      assert outcomes[j].0 == e;
    }
  }

  /**
   * The loop body for record `k`: `entries.sort` by time, the transition scan
   * of the sorted list, and `invalid_edges[edge_id] = violations` when there
   * are any. No other record's entries change.
   */
  method ValidateRecord(edges: seq<EdgeRecord>, k: nat, valid: set<(int, int)>, invalid: map<int, seq<Violation<real>>>,
                        ghost path: EdgePath) returns (written: map<int, seq<Violation<real>>>)
    requires forall i, j | 0 <= i < j < |edges| :: edges[i].entries != edges[j].entries
    requires k < |edges| && path == EdgePath(edges[k].edgeId, edges[k].entries[..])
    modifies edges[k].entries
    ensures edges[k].entries[..] == SortedByTime(path.entries, RealLe)
    ensures forall j | 0 <= j < |edges| && j != k :: edges[j].entries[..] == old(edges[j].entries[..])
    ensures written ==
      if PathViolations(path, valid) != [] then invalid[path.edgeId := PathViolations(path, valid)] else invalid
  {
    var entries := edges[k].entries;
    SortByTime(entries, RealLe);
    var violations := ScanTransitions(entries, valid);
    written := invalid;
    if violations != [] {
      written := written[edges[k].edgeId := violations];
    }
    forall j | 0 <= j < |edges| && j != k ensures edges[j].entries[..] == old(edges[j].entries[..]) {
      assert edges[j].entries != entries;
    }
  }

  /**
   * The whole flow. `paths` names what the records hold on entry. Every
   * record's entries end up sorted in place (a stable sort by time), and the
   * result is what writing the records' outcomes, in order, gives.
   */
  method LoadAndValidateMigrationsV2(edges: seq<EdgeRecord>, adj: seq<seq<int>>, ghost paths: seq<EdgePath>)
    returns (invalid: map<int, seq<Violation<real>>>)
    requires forall j, k | 0 <= j < k < |edges| :: edges[j].entries != edges[k].entries
    requires |paths| == |edges|
    requires forall k | 0 <= k < |edges| :: paths[k] == EdgePath(edges[k].edgeId, edges[k].entries[..])
    modifies set e | e in edges :: e.entries
    ensures forall k | 0 <= k < |edges| :: edges[k].entries[..] == SortedByTime(paths[k].entries, RealLe)
    ensures invalid == Written(Outcomes(paths, ValidTransitions(adj)))
  {
    var valid := BuildValidTransitions(adj);
    invalid := map[];
    var k := 0;
    while k < |edges|
      invariant 0 <= k <= |edges|
      invariant forall j | 0 <= j < k :: edges[j].entries[..] == SortedByTime(paths[j].entries, RealLe)
      invariant forall j | k <= j < |edges| :: edges[j].entries[..] == paths[j].entries
      invariant invalid == Written(Outcomes(paths[..k], valid))
    {
      invalid := ValidateRecord(edges, k, valid, invalid, paths[k]);
      assert paths[..k + 1][..k] == paths[..k];
      WrittenAppend(Outcomes(paths[..k], valid), (paths[k].edgeId, PathViolations(paths[k], valid)));
      k := k + 1;
    }
    assert paths[..k] == paths;
  }
}

/**
 * `load_and_validate_migrations`: the flat-row flow. Rows are grouped per
 * edge in input order; each edge's path is checked for same-time conflicts as
 * read, then sorted by its time strings and scanned for transitions the
 * adjacency matrix does not allow. An edge is reported when either check finds
 * something, with the transition violations first.
 */
module CsvChecker {
  import opened Records
  import opened TimeOrder
  import opened Timeline
  import opened Adjacency
  import opened Transitions
  import opened TimeConflicts
  import opened Reporting

  /** One input record; its time is the string read from the file, never parsed. */
  datatype Row = Row(edgeId: int, stateId: int, time: string)

  /** The `(time, state_id)` pair a row adds to its edge's path. */
  function EntryOf(r: Row): Entry<string> {
    Entry(r.time, r.stateId)
  }

  /** The edge ids that occur in `rows`. */
  function EdgeIds(rows: seq<Row>): set<int> {
    set r | r in rows :: r.edgeId
  }

  /** The path of edge `e`: the entries of its rows, in input order. */
  function PathOf(rows: seq<Row>, e: int): (p: seq<Entry<string>>)
    ensures |p| <= |rows|
    ensures e !in EdgeIds(rows) ==> p == []
  {
    if rows == [] then []
    else
      var init, last := rows[..|rows| - 1], rows[|rows| - 1];
      assert rows == init + [last];
      PathOf(init, e) + (if last.edgeId == e then [EntryOf(last)] else [])
  }

  /** The positions of the rows of edge `e`, in increasing order. */
  ghost function RowsOf(rows: seq<Row>, e: int): (r: seq<int>)
    ensures forall k :: k in r <==> 0 <= k < |rows| && rows[k].edgeId == e
    ensures forall m | 0 <= m < |r| :: 0 <= r[m] < |rows|
    ensures forall m, n | 0 <= m < n < |r| :: r[m] < r[n]
  {
    if rows == [] then []
    else
      var init := rows[..|rows| - 1];
      RowsOf(init, e) + (if rows[|rows| - 1].edgeId == e then [|rows| - 1] else [])
  }

  /**
   * Every row lands in the path of its own edge and of no other: the m-th
   * entry of edge `e`'s path comes from the m-th row of edge `e`.
   */
  lemma {:induction false} PathOfIsRowsOfEdge(rows: seq<Row>, e: int)
    ensures |PathOf(rows, e)| == |RowsOf(rows, e)|
    ensures forall m | 0 <= m < |RowsOf(rows, e)| ::
      0 <= RowsOf(rows, e)[m] < |rows| && PathOf(rows, e)[m] == EntryOf(rows[RowsOf(rows, e)[m]])
  {
    if rows != [] {
      var init := rows[..|rows| - 1];
      var last := rows[|rows| - 1];
      PathOfIsRowsOfEdge(init, e);
      var pi, ri := PathOf(init, e), RowsOf(init, e);
      var tail := if last.edgeId == e then [EntryOf(last)] else [];
      assert PathOf(rows, e) == pi + tail;
      assert RowsOf(rows, e) == ri + (if last.edgeId == e then [|rows| - 1] else []);
      forall m | 0 <= m < |ri| ensures rows[ri[m]] == init[ri[m]] {
        assert 0 <= ri[m] < |init|;
      }
    }
  }

  /** The grouping loop: one list per edge id, in the order the ids first appear. */
  method GroupByEdge(rows: seq<Row>) returns (migrations: map<int, seq<Entry<string>>>, order: seq<int>)
    ensures migrations.Keys == EdgeIds(rows)
    ensures forall e | e in migrations :: migrations[e] == PathOf(rows, e)
    ensures forall e :: e in order <==> e in migrations
    ensures forall j | 0 <= j < |order| :: order[j] in migrations
    ensures forall j, k | 0 <= j < k < |order| :: order[j] != order[k]
  {
    migrations := map[];
    order := [];
    var i := 0;
    while i < |rows|
      invariant 0 <= i <= |rows|
      invariant migrations.Keys == EdgeIds(rows[..i])
      invariant forall e | e in migrations :: migrations[e] == PathOf(rows[..i], e)
      invariant forall e :: e in order <==> e in migrations
      invariant forall j, k | 0 <= j < k < |order| :: order[j] != order[k]
    {
      var entry := rows[i];
      assert rows[..i + 1][..i] == rows[..i];
      assert rows[..i + 1] == rows[..i] + [entry];
      if entry.edgeId !in migrations {
        migrations := migrations[entry.edgeId := []];
        order := order + [entry.edgeId];
      }
      migrations := migrations[entry.edgeId := migrations[entry.edgeId] + [EntryOf(entry)]];
      i := i + 1;
    }
    assert rows[..i] == rows;
  }

  /** After `path.sort`, an edge's path is in non-decreasing time order and a permutation of its rows' entries. */
  lemma SortedPath(path: seq<Entry<string>>)
    ensures SortedBy(SortedByTime(path, LexLe), LexLe)
    ensures multiset(SortedByTime(path, LexLe)) == multiset(path)
  {
    LexLeIsTotalOrder();
    SortedByTimeIsSorted(path, LexLe);
    SortedByTimePermutes(path, LexLe);
  }

  /** Every transition violation of the sorted path starts no later than it ends (in string order). */
  lemma TransitionTimesInStringOrder(path: seq<Entry<string>>, valid: set<(int, int)>)
    ensures forall v | v in TransitionViolations(SortedByTime(path, LexLe), valid) :: LexLe(v.timeStart, v.timeEnd)
  {
    SortedPath(path);
    TransitionTimesOrdered(SortedByTime(path, LexLe), valid, LexLe);
  }

  /** The combined list of one edge: transition violations of the sorted path, then its same-time conflicts. */
  function EdgeViolations(path: seq<Entry<string>>, valid: set<(int, int)>): seq<Violation<string>> {
    TransitionViolations(SortedByTime(path, LexLe), valid) + SameTimeViolations(path)
  }

  /**
   * An edge's combined list is empty exactly when no time of its path carries
   * two states and no neighbouring pair of the sorted path makes a move that
   * is not allowed.
   */
  lemma EdgeViolationsEmptyIff(path: seq<Entry<string>>, valid: set<(int, int)>)
    ensures EdgeViolations(path, valid) == [] <==>
      SingleStatePerTime(path) && NoneFlagged(SortedByTime(path, LexLe), valid)
  {
    var sorted := SortedByTime(path, LexLe);
    var tv, sv := TransitionViolations(sorted, valid), SameTimeViolations(path);
    assert EdgeViolations(path, valid) == tv + sv;
    assert |tv + sv| == |tv| + |sv|;
    NoConflictIff(path);
    NoViolationIff(sorted, valid);
  }

  /** Two rows of one edge at one time with different states always get the edge reported. */
  lemma ConflictingRowsReported(rows: seq<Row>, valid: set<(int, int)>, k1: int, k2: int)
    requires 0 <= k1 < |rows| && 0 <= k2 < |rows|
    requires rows[k1].edgeId == rows[k2].edgeId && rows[k1].time == rows[k2].time
    requires rows[k1].stateId != rows[k2].stateId
    ensures EdgeViolations(PathOf(rows, rows[k1].edgeId), valid) != []
  {
    var e := rows[k1].edgeId;
    var path := PathOf(rows, e);
    PathOfIsRowsOfEdge(rows, e);
    var ks := RowsOf(rows, e);
    var m1 :| 0 <= m1 < |ks| && ks[m1] == k1;
    var m2 :| 0 <= m2 < |ks| && ks[m2] == k2;
    assert path[m1] == EntryOf(rows[k1]) && path[m2] == EntryOf(rows[k2]);
    assert path[m1] in path && path[m2] in path;
    EdgeViolationsEmptyIff(path, valid);
  }

  /** The body of the per-edge loop: same-time check as read, in-place sort, transition scan. */
  method ValidateEdge(entries: seq<Entry<string>>, valid: set<(int, int)>) returns (combined: seq<Violation<string>>)
    ensures combined == EdgeViolations(entries, valid)
  {
    var timeViolations := CheckDuplicateTimes(entries);
    var path := new Entry<string>[|entries|](j requires 0 <= j < |entries| => entries[j]);
    assert path[..] == entries;
    SortByTime(path, LexLe);
    var violations := ScanTransitions(path, valid);
    combined := violations + timeViolations;
  }

  /** Each edge id of `order` with its combined list, in that order. */
  function EdgeOutcomes(order: seq<int>, migrations: map<int, seq<Entry<string>>>, valid: set<(int, int)>):
    (r: seq<(int, seq<Violation<string>>)>)
    requires forall j | 0 <= j < |order| :: order[j] in migrations
    ensures |r| == |order|
    ensures forall j | 0 <= j < |order| :: r[j] == (order[j], EdgeViolations(migrations[order[j]], valid))
  {
    seq(|order|, j requires 0 <= j < |order| => (order[j], EdgeViolations(migrations[order[j]], valid)))
  }

  /**
   * When `order` lists exactly the grouped edges, writing their outcomes
   * gives each edge with a non-empty combined list, mapped to that list, and
   * no other key.
   */
  lemma WrittenEdges(order: seq<int>, migrations: map<int, seq<Entry<string>>>, valid: set<(int, int)>)
    requires forall j | 0 <= j < |order| :: order[j] in migrations
    requires forall e | e in migrations :: e in order
    ensures forall e :: e in Written(EdgeOutcomes(order, migrations, valid)) <==>
      e in migrations && EdgeViolations(migrations[e], valid) != []
    ensures forall e | e in Written(EdgeOutcomes(order, migrations, valid)) ::
      Written(EdgeOutcomes(order, migrations, valid))[e] == EdgeViolations(migrations[e], valid)
  {
    var outs := EdgeOutcomes(order, migrations, valid);
    forall e ensures e in Written(outs) <==> e in migrations && EdgeViolations(migrations[e], valid) != [] {
      WrittenKeys(outs, e);
      if e in migrations {
        var j :| 0 <= j < |order| && order[j] == e;
        assert outs[j] == (e, EdgeViolations(migrations[e], valid));
      }
    }
    forall e | e in Written(outs) ensures Written(outs)[e] == EdgeViolations(migrations[e], valid) {
      WrittenLastWins(outs, e);
    }
  }

  /**
   * The whole flow: an edge id is a key of the result exactly when its
   * combined list is non-empty, and then maps to that list.
   */
  method LoadAndValidateMigrations(rows: seq<Row>, adj: seq<seq<int>>) returns (invalid: map<int, seq<Violation<string>>>)
    ensures forall e :: e in invalid <==>
      e in EdgeIds(rows) && EdgeViolations(PathOf(rows, e), ValidTransitions(adj)) != []
    ensures forall e | e in invalid :: invalid[e] == EdgeViolations(PathOf(rows, e), ValidTransitions(adj))
  {
    var valid := BuildValidTransitions(adj);
    var migrations, order := GroupByEdge(rows);
    ghost var outcomes := EdgeOutcomes(order, migrations, valid);
    invalid := map[];
    var k := 0;
    while k < |order|
      invariant 0 <= k <= |order|
      invariant invalid == Written(outcomes[..k])
    {
      var edgeId := order[k];
      var combined := ValidateEdge(migrations[edgeId], valid);
      assert outcomes[k] == (edgeId, combined);
      WrittenSnoc(outcomes, k);
      if combined != [] {
        invalid := invalid[edgeId := combined];
      }
      k := k + 1;
    }
    assert outcomes[..k] == outcomes;
    WrittenEdges(order, migrations, valid);
  }
}

/**
 * Writing results into the `invalid_edges` dictionary: both flows visit their
 * edges in order and assign an edge's violations only when there are any, so
 * a later assignment for the same id replaces an earlier one.
 */
module Reporting {
  /** The dictionary after `invalid_edges[edge_id] = violations` has run, in order, for each outcome whose violations are non-empty. */
  function Written<V>(outcomes: seq<(int, seq<V>)>): map<int, seq<V>> {
    if outcomes == [] then map[]
    else
      var m := Written(outcomes[..|outcomes| - 1]);
      var o := outcomes[|outcomes| - 1];
      if o.1 != [] then m[o.0 := o.1] else m
  }

  /** The prefix of length `k + 1`: outcome `k` is written when non-empty, otherwise the dictionary is left as it was. */
  lemma WrittenSnoc<V>(outcomes: seq<(int, seq<V>)>, k: int)
    requires 0 <= k < |outcomes|
    ensures Written(outcomes[..k + 1]) ==
      if outcomes[k].1 != [] then Written(outcomes[..k])[outcomes[k].0 := outcomes[k].1] else Written(outcomes[..k])
  {
    assert outcomes[..k + 1][..k] == outcomes[..k];
  }

  /** One more outcome at the end: written when non-empty, otherwise the dictionary is left as it was. */
  lemma WrittenAppend<V>(outcomes: seq<(int, seq<V>)>, o: (int, seq<V>))
    ensures Written(outcomes + [o]) == if o.1 != [] then Written(outcomes)[o.0 := o.1] else Written(outcomes)
  {
    assert (outcomes + [o])[..|outcomes|] == outcomes;
  }

  /** Outcome `k` is non-empty and no later outcome for its id is. */
  ghost predicate LastWritten<V>(outcomes: seq<(int, seq<V>)>, id: int, k: int) {
    && 0 <= k < |outcomes| && outcomes[k].0 == id && outcomes[k].1 != []
    && forall j | k < j < |outcomes| && outcomes[j].0 == id :: outcomes[j].1 == []
  }

  /**
   * An id is a key of the result exactly when some outcome with that id is
   * non-empty: an empty outcome never adds a key.
   */
  lemma {:induction false} WrittenKeys<V>(outcomes: seq<(int, seq<V>)>, id: int)
    ensures id !in Written(outcomes) <==>
      forall k | 0 <= k < |outcomes| && outcomes[k].0 == id :: outcomes[k].1 == []
  {
    if outcomes != [] {
      var n := |outcomes| - 1;
      var init := outcomes[..n];
      WrittenKeys(init, id);
      assert forall k | 0 <= k < n :: outcomes[k] == init[k];
    }
  }

  /**
   * A key maps to the last non-empty outcome with that id: a later non-empty
   * outcome overwrites an earlier one, a later empty one leaves it in place.
   */
  lemma {:induction false} WrittenLastWins<V>(outcomes: seq<(int, seq<V>)>, id: int)
    requires id in Written(outcomes)
    ensures exists k :: LastWritten(outcomes, id, k) && Written(outcomes)[id] == outcomes[k].1
  {
    var n := |outcomes| - 1;
    var init, o := outcomes[..n], outcomes[n];
    var r, m := Written(outcomes), Written(init);
    if o.0 == id && o.1 != [] {
      assert LastWritten(outcomes, id, n);
    } else {
      assert id in m && r[id] == m[id];
      WrittenLastWins(init, id);
      var k :| LastWritten(init, id, k) && m[id] == init[k].1;
      assert outcomes[k] == init[k];
      assert LastWritten(outcomes, id, k);
    }
  }
}

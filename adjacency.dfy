/**
 * The allowed state-to-state moves, read from the land-grid adjacency matrix
 * (given here without its index column). States are numbered from 1, matrix
 * rows and columns from 0; a 1 in either orientation allows the move both ways.
 */
module Adjacency {

  /** Cell `(i, j)` lies inside the matrix and holds a 1. */
  predicate Adjacent(adj: seq<seq<int>>, i: int, j: int) {
    0 <= i < |adj| && 0 <= j < |adj[i]| && adj[i][j] == 1
  }

  /** Moving from state `p.0` to state `p.1` is allowed. */
  predicate Allowed(adj: seq<seq<int>>, p: (int, int)) {
    Adjacent(adj, p.0 - 1, p.1 - 1) || Adjacent(adj, p.1 - 1, p.0 - 1)
  }

  /** The set `valid_transitions`, as a value. */
  function ValidTransitions(adj: seq<seq<int>>): (r: set<(int, int)>)
    ensures forall p :: p in r <==> Allowed(adj, p)
    ensures forall a, b :: (a, b) in r <==> (b, a) in r
  {
    var forward := set i, j | 0 <= i < |adj| && 0 <= j < |adj[i]| && adj[i][j] == 1 :: (i + 1, j + 1);
    var backward := set i, j | 0 <= i < |adj| && 0 <= j < |adj[i]| && adj[i][j] == 1 :: (j + 1, i + 1);
    var r := forward + backward;
    assert forall p | Allowed(adj, p) :: p in r by {
      forall p | Allowed(adj, p) ensures p in r {
        if Adjacent(adj, p.0 - 1, p.1 - 1) {
          assert (p.0 - 1 + 1, p.1 - 1 + 1) in forward;
        } else {
          assert (p.0 - 1 + 1, p.1 - 1 + 1) in backward;
        }
      }
    }
    r
  }

  /** Cell `(r, c)` holds a 1 and comes before cell `(i, j)` in row-major order. */
  predicate AdjacentBefore(adj: seq<seq<int>>, i: int, j: int, r: int, c: int) {
    Adjacent(adj, r, c) && (r < i || (r == i && c < j))
  }

  /** The nested loops that fill `valid_transitions` cell by cell. */
  method BuildValidTransitions(adj: seq<seq<int>>) returns (valid: set<(int, int)>)
    ensures forall p :: p in valid <==> Allowed(adj, p)
    ensures valid == ValidTransitions(adj)
  {
    valid := {};
    var i := 0;
    while i < |adj|
      invariant 0 <= i <= |adj|
      invariant forall p :: p in valid <==>
        AdjacentBefore(adj, i, 0, p.0 - 1, p.1 - 1) || AdjacentBefore(adj, i, 0, p.1 - 1, p.0 - 1)
    {
      var j := 0;
      while j < |adj[i]|
        invariant 0 <= j <= |adj[i]|
        invariant forall p :: p in valid <==>
          AdjacentBefore(adj, i, j, p.0 - 1, p.1 - 1) || AdjacentBefore(adj, i, j, p.1 - 1, p.0 - 1)
      {
        if adj[i][j] == 1 {
          valid := valid + {(i + 1, j + 1), (j + 1, i + 1)};
        }
        j := j + 1;
      }
      i := i + 1;
    }
  }
}

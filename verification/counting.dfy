/**
 Cardinality facts behind `place_food`: the board has GridSize * GridSize
 cells, a body without repeats occupies as many cells as it is long, and so a
 body shorter than the board leaves a free cell.
 */
module Counting {
  import opened Grid

  /** The cells a body occupies. */
  function Occupied(s: seq<Cell>): set<Cell> {
    set i | 0 <= i < |s| :: s[i]
  }

  /** A cell `place_food` may return for this body: on the board and not in the body. */
  predicate Free(s: seq<Cell>, c: Cell) {
    InBounds(c) && c !in s
  }

  /** The first `k` cells of row `r`. */
  function RowCells(r: int, k: nat): set<Cell> {
    set c | 0 <= c < k :: (r, c)
  }

  /** The cells of the first `n` rows, `k` columns each. */
  function Block(n: nat, k: nat): set<Cell> {
    set r, c | 0 <= r < n && 0 <= c < k :: (r, c)
  }

  lemma {:induction false} RowCellsCard(r: int, k: nat)
    ensures |RowCells(r, k)| == k
  {
    if k > 0 {
      RowCellsCard(r, k - 1);
      assert RowCells(r, k) == RowCells(r, k - 1) + {(r, k - 1)};
      assert (r, k - 1) !in RowCells(r, k - 1);
    } else {
      assert RowCells(r, k) == {};
    }
  }

  lemma {:induction false} BlockCard(n: nat, k: nat)
    ensures |Block(n, k)| == n * k
  {
    if n > 0 {
      BlockCard(n - 1, k);
      RowCellsCard(n - 1, k);
      assert Block(n, k) == Block(n - 1, k) + RowCells(n - 1, k) by {
        forall x | x in Block(n, k) ensures x in Block(n - 1, k) + RowCells(n - 1, k) {
          if x.0 < n - 1 { assert x in Block(n - 1, k); } else { assert x in RowCells(n - 1, k); }
        }
      }
      assert Block(n - 1, k) !! RowCells(n - 1, k);
      assert n * k == (n - 1) * k + k;
    } else {
      assert Block(n, k) == {};
    }
  }

  /** A body without repeats occupies exactly as many cells as it is long. */
  lemma {:induction false} DistinctOccupiedCard(s: seq<Cell>)
    requires Distinct(s)
    ensures |Occupied(s)| == |s|
  {
    if |s| > 0 {
      var t := s[1..];
      assert Distinct(t) by {
        forall i, j | 0 <= i < j < |t| ensures t[i] != t[j] {
          assert t[i] == s[i + 1] && t[j] == s[j + 1];
        }
      }
      DistinctOccupiedCard(t);
      assert Occupied(s) == {s[0]} + Occupied(t) by {
        forall x | x in Occupied(s) ensures x in {s[0]} + Occupied(t) {
          var i :| 0 <= i < |s| && s[i] == x;
          if i > 0 { assert t[i - 1] == x; }
        }
        forall x | x in Occupied(t) ensures x in Occupied(s) {
          var i :| 0 <= i < |t| && t[i] == x;
          assert s[i + 1] == x;
        }
      }
      assert s[0] !in Occupied(t);
    } else {
      assert Occupied(s) == {};
    }
  }

  lemma SubsetCard(a: set<Cell>, b: set<Cell>)
    requires a <= b
    ensures |a| <= |b|
    ensures a != b ==> |a| < |b|
  {
    assert b == a + (b - a);
    assert a !! (b - a);
    if a != b {
      var x :| x in b && x !in a;
      assert x in b - a;
    }
  }

  /**
   Pigeonhole: a body on the board without repeats that is shorter than the
   number of cells leaves a free cell, so `place_food`'s retry loop can end.
   */
  lemma FreeCellExists(s: seq<Cell>)
    requires AllInBounds(s) && Distinct(s)
    requires |s| < GridSize * GridSize
    ensures exists c :: Free(s, c)
  {
    var board := Block(GridSize, GridSize);
    BlockCard(GridSize, GridSize);
    DistinctOccupiedCard(s);
    if forall c :: !Free(s, c) {
      assert board <= Occupied(s) by {
        forall c | c in board ensures c in Occupied(s) {
          assert !Free(s, c);
          var i :| 0 <= i < |s| && s[i] == c;
        }
      }
      SubsetCard(board, Occupied(s));
      assert false;
    }
  }

  /** A full board leaves no free cell: `place_food` would loop forever. */
  lemma FullBoardHasNoFreeCell(s: seq<Cell>)
    requires Distinct(s) && AllInBounds(s)
    requires |s| == GridSize * GridSize
    ensures forall c :: !Free(s, c)
  {
    var board := Block(GridSize, GridSize);
    BlockCard(GridSize, GridSize);
    DistinctOccupiedCard(s);
    assert Occupied(s) <= board by {
      forall c | c in Occupied(s) ensures c in board {
        var i :| 0 <= i < |s| && s[i] == c;
        assert InBounds(s[i]);
      }
    }
    forall c ensures !Free(s, c) {
      if Free(s, c) {
        assert c in board;
        assert c !in Occupied(s);
        SubsetCard(Occupied(s), board - {c});
        assert false;
      }
    }
  }
}

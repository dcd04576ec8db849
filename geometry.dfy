/** Coordinates on the square board. A position (x, y) names row x and
    column y of an n-by-n grid; the pokemon placement records positions by
    their row-major linear index x * n + y. */
module Geometry {

  /** position_to_index: the row-major linear index of (x, y). */
  function PositionToIndex(n: int, x: int, y: int): (i: int)
    ensures IsOnBoard(n, x, y) ==> 0 <= i < n * n
  {
    assert IsOnBoard(n, x, y) ==> 0 <= x * n <= n * n - n by {
      if IsOnBoard(n, x, y) && x < n - 1 {
        MulAtLeast(n - 1 - x, n);
        assert (n - 1 - x) * n == n * n - n - x * n;
      }
    }
    x * n + y
  }

  /** index_to_position: Python's floor division and modulo; for a positive
      divisor they agree with Dafny's Euclidean `/` and `%`. */
  function IndexToPosition(n: int, i: int): (p: (int, int))
    requires n > 0
    ensures 0 <= p.1 < n
    ensures 0 <= i < n * n ==> IsOnBoard(n, p.0, p.1)
  {
    (i / n, i % n)
  }

  /** is_on_board */
  predicate IsOnBoard(n: int, x: int, y: int)
    ensures IsOnBoard(n, x, y) ==> n > 0
  {
    0 <= x < n && 0 <= y < n
  }

  lemma MulAtLeast(a: int, n: int)
    requires a >= 1 && n > 0
    ensures a * n >= n
  {
    assert a * n == (a - 1) * n + n;
    assert (a - 1) * n >= 0;
  }

  /** Quotient and remainder are determined by `i == q * n + r, 0 <= r < n`. */
  lemma DivModUnique(n: int, i: int, q: int, r: int)
    requires n > 0 && 0 <= r < n && i == q * n + r
    ensures i / n == q && i % n == r
  {
    var q', r' := i / n, i % n;
    assert i == q' * n + r';
    if q' < q {
      MulAtLeast(q - q', n);
      assert false;
    } else if q < q' {
      MulAtLeast(q' - q, n);
      assert false;
    }
  }

  /** An on-board position has an index in [0, n*n), and index_to_position
      gives the position back. */
  lemma PositionRoundTrip(n: int, x: int, y: int)
    requires IsOnBoard(n, x, y)
    ensures 0 <= PositionToIndex(n, x, y) < n * n
    ensures IndexToPosition(n, PositionToIndex(n, x, y)) == (x, y)
  {
    DivModUnique(n, x * n + y, x, y);
  }

  /** Every index in [0, n*n) names an on-board position, and
      position_to_index gives the index back. */
  lemma IndexRoundTrip(n: int, i: int)
    requires n > 0 && 0 <= i < n * n
    ensures IsOnBoard(n, IndexToPosition(n, i).0, IndexToPosition(n, i).1)
    ensures PositionToIndex(n, IndexToPosition(n, i).0, IndexToPosition(n, i).1) == i
  {
    var q, r := i / n, i % n;
    assert i == q * n + r && 0 <= r < n;
    if q < 0 {
      MulAtLeast(-q, n);
      assert false;
    }
    if q >= n {
      MulAtLeast(q - n + 1, n);
      assert false;
    }
  }

  /** Distinct on-board positions have distinct indices. */
  lemma IndexInjective(n: int, x: int, y: int, a: int, b: int)
    requires IsOnBoard(n, x, y) && IsOnBoard(n, a, b)
    requires PositionToIndex(n, x, y) == PositionToIndex(n, a, b)
    ensures x == a && y == b
  {
    PositionRoundTrip(n, x, y);
    PositionRoundTrip(n, a, b);
  }
}

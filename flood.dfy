/** What the recursive reveal of left_click and extend_zero does to the
    board, stated as relations between the board before and after:
    - Reveals: only "~" cells change, each into its own neighbour count,
      and never on a pokemon;
    - FloodClosed: no cell newly shown as "0" keeps a "~" cell among its
      four side neighbours;
    - Spreads: every changed cell lies in the region grown from the
      seeds of the reveal through cells newly shown as "0" (the least set
      holding the seeds and the four side neighbours of each new "0" in
      it), so nothing outside the seeds' connected zero area changes.
    The set of "~" cells is the termination measure of the recursion. */
module Flood {
  import opened Geometry
  import opened Counting
  import opened Board

  ghost predicate Reveals(n: nat, pokemon: seq<int>, before: Grid, after: Grid)
    requires IsSquare(before, n) && IsSquare(after, n)
  {
    forall x, y {:trigger after[x][y]} {:trigger before[x][y]} | IsOnBoard(n, x, y) ::
      || after[x][y] == before[x][y]
      || (&& before[x][y] == Unexposed
          && PositionToIndex(n, x, y) !in pokemon
          && after[x][y] == Digit(CalculateCount(n, pokemon, x, y)))
  }

  /** None of the four side neighbours of (x, y) is "~". */
  predicate NoUnexposedAround(n: nat, g: Grid, x: int, y: int)
    requires IsSquare(g, n)
  {
    && (IsOnBoard(n, x - 1, y) ==> g[x - 1][y] != Unexposed)
    && (IsOnBoard(n, x + 1, y) ==> g[x + 1][y] != Unexposed)
    && (IsOnBoard(n, x, y - 1) ==> g[x][y - 1] != Unexposed)
    && (IsOnBoard(n, x, y + 1) ==> g[x][y + 1] != Unexposed)
  }

  /** (x, y) was "~" before and shows "0" after. */
  predicate NewZero(n: nat, before: Grid, after: Grid, x: int, y: int)
    requires IsSquare(before, n) && IsSquare(after, n)
  {
    IsOnBoard(n, x, y) && before[x][y] == Unexposed && after[x][y] == Digit(0)
  }

  ghost predicate FloodClosed(n: nat, before: Grid, after: Grid)
    requires IsSquare(before, n) && IsSquare(after, n)
  {
    forall x, y | NewZero(n, before, after, x, y) :: NoUnexposedAround(n, after, x, y)
  }

  /** The region r holds the seeds and, with every cell of it newly shown
      as "0", that cell's four side neighbours. */
  ghost predicate RegionClosed(n: nat, before: Grid, after: Grid, seeds: set<(int, int)>, r: set<(int, int)>)
    requires IsSquare(before, n) && IsSquare(after, n)
  {
    && seeds <= r
    && forall x, y | (x, y) in r && NewZero(n, before, after, x, y) :: Side(x, y) <= r
  }

  /** Every cell that changed lies in r. */
  ghost predicate ChangesWithin(n: nat, before: Grid, after: Grid, r: set<(int, int)>)
    requires IsSquare(before, n) && IsSquare(after, n)
  {
    forall x, y | IsOnBoard(n, x, y) && after[x][y] != before[x][y] :: (x, y) in r
  }

  /** Every changed cell lies in each region closed over the seeds, hence
      in the least one: the cells reached from the seeds by steps from a
      new "0" to a side neighbour. */
  ghost predicate Spreads(n: nat, before: Grid, after: Grid, seeds: set<(int, int)>)
    requires IsSquare(before, n) && IsSquare(after, n)
  {
    forall r | RegionClosed(n, before, after, seeds, r) :: ChangesWithin(n, before, after, r)
  }

  function Side(x: int, y: int): set<(int, int)>
  {
    {(x - 1, y), (x + 1, y), (x, y - 1), (x, y + 1)}
  }

  /** Where a call extend_zero((x, y), _) may change cells without passing
      through a new "0": the cell itself and, when its count is zero, its
      side neighbours. */
  function Seeds(n: nat, pokemon: seq<int>, x: int, y: int): set<(int, int)>
  {
    if PositionToIndex(n, x, y) !in pokemon && CalculateCount(n, pokemon, x, y) == 0 then
      {(x, y)} + Side(x, y)
    else
      {(x, y)}
  }

  /** None of the given on-board cells shows "~". */
  ghost predicate AllExposed(n: nat, g: Grid, cells: set<(int, int)>)
    requires IsSquare(g, n)
  {
    forall x, y {:trigger g[x][y]} | (x, y) in cells && IsOnBoard(n, x, y) :: g[x][y] != Unexposed
  }

  /** Part way through extend_zero at the zero cell (x, y): b0 is the
      board on entry, b1 the board once (x, y) shows "0", g the current
      board, and the side neighbours in done are exposed. */
  ghost predicate ZeroProgress(n: nat, pokemon: seq<int>, b0: Grid, b1: Grid, g: Grid,
                               x: int, y: int, done: set<(int, int)>)
  {
    && IsSquare(b0, n) && IsSquare(b1, n) && IsSquare(g, n)
    && IsOnBoard(n, x, y) && PositionToIndex(n, x, y) !in pokemon
    && CalculateCount(n, pokemon, x, y) == 0
    && b1 == Write(b0, x, y, Digit(0))
    && Reveals(n, pokemon, b0, b1)
    && Reveals(n, pokemon, b1, g) && FloodClosed(n, b1, g)
    && Spreads(n, b0, g, Seeds(n, pokemon, x, y))
    && AllExposed(n, g, done)
  }

  /** The cells still showing "~". */
  ghost function UnexposedCells(g: Grid): set<(int, int)>
  {
    set x, y {:trigger g[x][y]} | 0 <= x < |g| && 0 <= y < |g[x]| && g[x][y] == Unexposed :: (x, y)
  }

  // ---------------------------------------------------------------------

  /** Two reveals in a row are a reveal, and closure composes. */
  lemma RevealsTrans(n: nat, pokemon: seq<int>, a: Grid, b: Grid, c: Grid)
    requires IsSquare(a, n) && IsSquare(b, n) && IsSquare(c, n)
    requires Reveals(n, pokemon, a, b) && Reveals(n, pokemon, b, c)
    ensures Reveals(n, pokemon, a, c)
    ensures FloodClosed(n, a, b) && FloodClosed(n, b, c) ==> FloodClosed(n, a, c)
  {
    if FloodClosed(n, a, b) && FloodClosed(n, b, c) {
      forall x, y | NewZero(n, a, c, x, y) ensures NoUnexposedAround(n, c, x, y) {
        if b[x][y] != Unexposed {
          assert NewZero(n, a, b, x, y);
          assert NoUnexposedAround(n, b, x, y);
        } else {
          assert NewZero(n, b, c, x, y);
        }
      }
    }
  }

  /** A reveal never creates a "~" cell. */
  lemma RevealsShrinks(n: nat, pokemon: seq<int>, a: Grid, b: Grid)
    requires IsSquare(a, n) && IsSquare(b, n) && Reveals(n, pokemon, a, b)
    ensures UnexposedCells(b) <= UnexposedCells(a)
    ensures |UnexposedCells(b)| <= |UnexposedCells(a)|
  {
    forall p | p in UnexposedCells(b) ensures p in UnexposedCells(a) {
      var x, y :| 0 <= x < |b| && 0 <= y < |b[x]| && b[x][y] == Unexposed && p == (x, y);
      assert a[x][y] == Unexposed;
    }
    SubsetSize(UnexposedCells(b), UnexposedCells(a));
  }

  /** Writing a symbol other than "~" removes at most that cell from the
      "~" cells. */
  lemma WriteShrinks(n: nat, g: Grid, x: int, y: int, c: Cell)
    requires IsSquare(g, n) && IsOnBoard(n, x, y) && c != Unexposed
    ensures UnexposedCells(Write(g, x, y, c)) == UnexposedCells(g) - {(x, y)}
  {
    var h := Write(g, x, y, c);
    forall p | p in UnexposedCells(h) ensures p in UnexposedCells(g) - {(x, y)} {
      var a, b :| 0 <= a < |h| && 0 <= b < |h[a]| && h[a][b] == Unexposed && p == (a, b);
      assert g[a][b] == Unexposed;
    }
    forall p | p in UnexposedCells(g) - {(x, y)} ensures p in UnexposedCells(h) {
      var a, b :| 0 <= a < |g| && 0 <= b < |g[a]| && g[a][b] == Unexposed && p == (a, b);
      assert h[a][b] == Unexposed;
    }
  }

  /** Writing its own count onto a cell without a pokemon that shows "~"
      or already that count is a reveal seeded at that cell; it is closed
      unless the count is zero, and the "~" cells do not grow. */
  lemma WriteReveals(n: nat, pokemon: seq<int>, g: Grid, x: int, y: int)
    requires IsSquare(g, n) && IsOnBoard(n, x, y) && PositionToIndex(n, x, y) !in pokemon
    requires g[x][y] == Unexposed || g[x][y] == Digit(CalculateCount(n, pokemon, x, y))
    ensures var h := Write(g, x, y, Digit(CalculateCount(n, pokemon, x, y)));
      && IsSquare(h, n)
      && Reveals(n, pokemon, g, h)
      && Spreads(n, g, h, {(x, y)})
      && (CalculateCount(n, pokemon, x, y) != 0 ==> FloodClosed(n, g, h))
      && |UnexposedCells(h)| <= |UnexposedCells(g)|
      && (g[x][y] == Unexposed ==> |UnexposedCells(h)| < |UnexposedCells(g)|)
  {
    var h := Write(g, x, y, Digit(CalculateCount(n, pokemon, x, y)));
    WriteShrinks(n, g, x, y, Digit(CalculateCount(n, pokemon, x, y)));
    WriteSpreads(n, g, x, y, Digit(CalculateCount(n, pokemon, x, y)));
    if g[x][y] == Unexposed {
      assert (x, y) in UnexposedCells(g);
      assert |UnexposedCells(h)| == |UnexposedCells(g)| - 1;
    } else {
      assert UnexposedCells(h) == UnexposedCells(g);
    }
  }

  /** A single set_item stays in the region of its own cell. */
  lemma WriteSpreads(n: nat, g: Grid, x: int, y: int, c: Cell)
    requires IsSquare(g, n) && IsOnBoard(n, x, y)
    ensures IsSquare(Write(g, x, y, c), n) && Spreads(n, g, Write(g, x, y, c), {(x, y)})
  {
    var h := Write(g, x, y, c);
    forall r | RegionClosed(n, g, h, {(x, y)}, r) ensures ChangesWithin(n, g, h, r) {
      assert (x, y) in r;
    }
  }

  /** A reveal keeps every symbol truthful and every unexposed pokemon
      hidden. */
  lemma RevealsKeepWellFormed(n: nat, pokemon: seq<int>, s: Game, after: Grid)
    requires WellFormed(n, pokemon, s) && IsSquare(after, n)
    requires Reveals(n, pokemon, s.board, after)
    ensures WellFormed(n, pokemon, s.(board := after))
  {
    forall x, y | IsOnBoard(n, x, y) ensures Truthful(n, pokemon, after[x][y], x, y) {
      assert Truthful(n, pokemon, s.board[x][y], x, y);
    }
  }

  /** A reveal keeps the flag bookkeeping. */
  lemma RevealsKeepConsistent(n: nat, pokemon: seq<int>, s: Game, after: Grid)
    requires IsSquare(s.board, n) && IsSquare(after, n)
    requires FlagsConsistent(n, pokemon, s) && Reveals(n, pokemon, s.board, after)
    ensures FlagsConsistent(n, pokemon, s.(board := after))
  {
    FlagIndicesSame(n, s.board, after);
  }

  /** One side neighbour (a, b) of a zero cell (x, y) handled by the
      recursive call: the facts gathered so far extend over that call. */
  lemma NeighbourStep(n: nat, pokemon: seq<int>, b0: Grid, b1: Grid, bk: Grid, bk1: Grid,
                      x: int, y: int, a: int, b: int)
    requires IsSquare(b0, n) && IsSquare(b1, n) && IsSquare(bk, n) && IsSquare(bk1, n)
    requires IsOnBoard(n, a, b) && (a, b) in Side(x, y)
    requires PositionToIndex(n, x, y) !in pokemon && CalculateCount(n, pokemon, x, y) == 0
    requires PositionToIndex(n, a, b) !in pokemon
    requires Reveals(n, pokemon, b0, b1) && Reveals(n, pokemon, b1, bk)
    requires FloodClosed(n, b1, bk) && Spreads(n, b0, bk, Seeds(n, pokemon, x, y))
    requires bk[a][b] == Unexposed
    requires Reveals(n, pokemon, bk, bk1) && FloodClosed(n, bk, bk1)
    requires Spreads(n, bk, bk1, Seeds(n, pokemon, a, b))
    requires bk1[a][b] == Digit(CalculateCount(n, pokemon, a, b))
    ensures Reveals(n, pokemon, b1, bk1) && FloodClosed(n, b1, bk1)
    ensures Spreads(n, b0, bk1, Seeds(n, pokemon, x, y))
  {
    RevealsTrans(n, pokemon, b1, bk, bk1);
    RevealsTrans(n, pokemon, b0, b1, bk);
    assert b0[a][b] == Unexposed;
    SpreadsTrans(n, pokemon, b0, bk, bk1, Seeds(n, pokemon, x, y), Seeds(n, pokemon, a, b));
    if CalculateCount(n, pokemon, a, b) == 0 {
      assert NewZero(n, b0, bk1, a, b);
      assert Seeds(n, pokemon, x, y) + Seeds(n, pokemon, a, b) == (Seeds(n, pokemon, x, y) + {(a, b)}) + Side(a, b);
      AbsorbSide(n, b0, bk1, Seeds(n, pokemon, x, y) + {(a, b)}, a, b);
    }
    assert Seeds(n, pokemon, x, y) + {(a, b)} == Seeds(n, pokemon, x, y);
  }

  /** The step of NeighbourStep in terms of ZeroProgress. */
  lemma ProgressStep(n: nat, pokemon: seq<int>, b0: Grid, b1: Grid, bk: Grid, bk1: Grid,
                     x: int, y: int, a: int, b: int, done: set<(int, int)>)
    requires ZeroProgress(n, pokemon, b0, b1, bk, x, y, done)
    requires IsSquare(bk1, n) && IsOnBoard(n, a, b) && (a, b) in Side(x, y)
    requires PositionToIndex(n, a, b) !in pokemon && bk[a][b] == Unexposed
    requires Reveals(n, pokemon, bk, bk1) && FloodClosed(n, bk, bk1)
    requires Spreads(n, bk, bk1, Seeds(n, pokemon, a, b))
    requires bk1[a][b] == Digit(CalculateCount(n, pokemon, a, b))
    ensures ZeroProgress(n, pokemon, b0, b1, bk1, x, y, done + {(a, b)})
  {
    NeighbourStep(n, pokemon, b0, b1, bk, bk1, x, y, a, b);
    forall p, q | (p, q) in done + {(a, b)} && IsOnBoard(n, p, q) ensures bk1[p][q] != Unexposed {
      if (p, q) != (a, b) {
        assert bk[p][q] != Unexposed;
      }
    }
  }

  /** A visited neighbour that was skipped because it is off the board or
      already exposed. */
  lemma ProgressSkip(n: nat, pokemon: seq<int>, b0: Grid, b1: Grid, g: Grid,
                     x: int, y: int, a: int, b: int, done: set<(int, int)>)
    requires ZeroProgress(n, pokemon, b0, b1, g, x, y, done)
    requires IsOnBoard(n, a, b) ==> g[a][b] != Unexposed
    ensures ZeroProgress(n, pokemon, b0, b1, g, x, y, done + {(a, b)})
  {
  }

  /** The start of extend_zero's neighbour visits, right after (x, y) was
      set to "0". */
  lemma ProgressStart(n: nat, pokemon: seq<int>, b0: Grid, x: int, y: int)
    requires IsSquare(b0, n) && IsOnBoard(n, x, y) && PositionToIndex(n, x, y) !in pokemon
    requires CalculateCount(n, pokemon, x, y) == 0
    requires b0[x][y] == Unexposed || b0[x][y] == Digit(0)
    ensures ZeroProgress(n, pokemon, b0, Write(b0, x, y, Digit(0)), Write(b0, x, y, Digit(0)), x, y, {})
  {
    WriteReveals(n, pokemon, b0, x, y);
    SpreadsMore(n, b0, Write(b0, x, y, Digit(0)), {(x, y)}, Seeds(n, pokemon, x, y));
  }

  /** The end of extend_zero's neighbour visits: all four side neighbours
      exposed, the whole call is a closed reveal spreading from its seeds. */
  lemma ProgressEnd(n: nat, pokemon: seq<int>, b0: Grid, b1: Grid, g: Grid, x: int, y: int,
                    done: set<(int, int)>)
    requires ZeroProgress(n, pokemon, b0, b1, g, x, y, done)
    requires (x - 1, y) in done && (x + 1, y) in done && (x, y - 1) in done && (x, y + 1) in done
    ensures Reveals(n, pokemon, b0, g) && FloodClosed(n, b0, g)
    ensures Spreads(n, b0, g, Seeds(n, pokemon, x, y))
    ensures g[x][y] == Digit(0) && NoUnexposedAround(n, g, x, y)
  {
    RevealsTrans(n, pokemon, b0, b1, g);
    ZeroCellClosed(n, pokemon, b0, b1, g, x, y);
  }

  /** What one guarded call at the end of extend_zero does to the board:
      nothing when the side neighbour (a, b) is off the board or not "~";
      otherwise a closed reveal seeded at (a, b) that exposes (a, b). */
  ghost predicate Visited(n: nat, pokemon: seq<int>, g: Grid, h: Grid, a: int, b: int)
    requires IsSquare(g, n) && IsSquare(h, n)
  {
    if IsOnBoard(n, a, b) && g[a][b] == Unexposed then
      && PositionToIndex(n, a, b) !in pokemon
      && Reveals(n, pokemon, g, h) && FloodClosed(n, g, h)
      && Spreads(n, g, h, Seeds(n, pokemon, a, b))
      && h[a][b] == Digit(CalculateCount(n, pokemon, a, b))
    else
      h == g
  }

  lemma VisitStep(n: nat, pokemon: seq<int>, b0: Grid, b1: Grid, g: Grid, h: Grid,
                  x: int, y: int, a: int, b: int, done: set<(int, int)>)
    requires ZeroProgress(n, pokemon, b0, b1, g, x, y, done)
    requires IsSquare(h, n) && (a, b) in Side(x, y) && Visited(n, pokemon, g, h, a, b)
    ensures ZeroProgress(n, pokemon, b0, b1, h, x, y, done + {(a, b)})
  {
    if IsOnBoard(n, a, b) && g[a][b] == Unexposed {
      ProgressStep(n, pokemon, b0, b1, g, h, x, y, a, b, done);
    } else {
      ProgressSkip(n, pokemon, b0, b1, g, x, y, a, b, done);
    }
  }

  /** The whole of extend_zero at a zero cell (x, y) that shows "~" or
      "0": (x, y) is set to "0" (b0 to b1), then its four side neighbours
      are visited in the order up, down, left, right (b1 to b5). The
      result is a closed reveal spreading from (x, y) and its side
      neighbours, with no "~" left beside (x, y). */
  lemma ZeroVisits(n: nat, pokemon: seq<int>, b0: Grid, b1: Grid, b2: Grid, b3: Grid, b4: Grid, b5: Grid,
                   x: int, y: int)
    requires IsSquare(b0, n) && IsSquare(b2, n) && IsSquare(b3, n) && IsSquare(b4, n) && IsSquare(b5, n)
    requires IsOnBoard(n, x, y) && PositionToIndex(n, x, y) !in pokemon
    requires CalculateCount(n, pokemon, x, y) == 0
    requires b0[x][y] == Unexposed || b0[x][y] == Digit(0)
    requires b1 == Write(b0, x, y, Digit(0))
    requires Visited(n, pokemon, b1, b2, x - 1, y) && Visited(n, pokemon, b2, b3, x + 1, y)
    requires Visited(n, pokemon, b3, b4, x, y - 1) && Visited(n, pokemon, b4, b5, x, y + 1)
    ensures Reveals(n, pokemon, b0, b5) && FloodClosed(n, b0, b5)
    ensures Spreads(n, b0, b5, Seeds(n, pokemon, x, y))
    ensures b5[x][y] == Digit(0) && NoUnexposedAround(n, b5, x, y)
  {
    ZeroVisitsUpDown(n, pokemon, b0, b1, b2, b3, x, y);
    var done := {(x - 1, y), (x + 1, y)};
    VisitStep(n, pokemon, b0, b1, b3, b4, x, y, x, y - 1, done);
    done := done + {(x, y - 1)};
    VisitStep(n, pokemon, b0, b1, b4, b5, x, y, x, y + 1, done);
    done := done + {(x, y + 1)};
    ProgressEnd(n, pokemon, b0, b1, b5, x, y, done);
  }

  /** The first two of those visits: up, then down. */
  lemma ZeroVisitsUpDown(n: nat, pokemon: seq<int>, b0: Grid, b1: Grid, b2: Grid, b3: Grid, x: int, y: int)
    requires IsSquare(b0, n) && IsSquare(b2, n) && IsSquare(b3, n)
    requires IsOnBoard(n, x, y) && PositionToIndex(n, x, y) !in pokemon
    requires CalculateCount(n, pokemon, x, y) == 0
    requires b0[x][y] == Unexposed || b0[x][y] == Digit(0)
    requires b1 == Write(b0, x, y, Digit(0))
    requires Visited(n, pokemon, b1, b2, x - 1, y) && Visited(n, pokemon, b2, b3, x + 1, y)
    ensures ZeroProgress(n, pokemon, b0, b1, b3, x, y, {(x - 1, y), (x + 1, y)})
  {
    ProgressStart(n, pokemon, b0, x, y);
    VisitStep(n, pokemon, b0, b1, b1, b2, x, y, x - 1, y, {});
    VisitStep(n, pokemon, b0, b1, b2, b3, x, y, x + 1, y, {} + {(x - 1, y)});
    assert {} + {(x - 1, y)} + {(x + 1, y)} == {(x - 1, y), (x + 1, y)};
  }

  /** Spreading composes over two reveals in a row, with the union of the
      seeds. */
  lemma SpreadsTrans(n: nat, pokemon: seq<int>, a: Grid, b: Grid, c: Grid,
                     s1: set<(int, int)>, s2: set<(int, int)>)
    requires IsSquare(a, n) && IsSquare(b, n) && IsSquare(c, n)
    requires Reveals(n, pokemon, a, b) && Reveals(n, pokemon, b, c)
    requires Spreads(n, a, b, s1) && Spreads(n, b, c, s2)
    ensures Spreads(n, a, c, s1 + s2)
  {
    forall r | RegionClosed(n, a, c, s1 + s2, r) ensures ChangesWithin(n, a, c, r) {
      RegionSplits(n, pokemon, a, b, c, s1, s2, r);
      assert ChangesWithin(n, a, b, r) && ChangesWithin(n, b, c, r);
      forall p, q | IsOnBoard(n, p, q) && c[p][q] != a[p][q] ensures (p, q) in r {
        if b[p][q] == a[p][q] {
          assert c[p][q] != b[p][q];
        }
      }
    }
  }

  /** A region closed over the seeds of two reveals in a row, for the
      reveal as a whole, is closed over the seeds of each. */
  lemma RegionSplits(n: nat, pokemon: seq<int>, a: Grid, b: Grid, c: Grid,
                     s1: set<(int, int)>, s2: set<(int, int)>, r: set<(int, int)>)
    requires IsSquare(a, n) && IsSquare(b, n) && IsSquare(c, n)
    requires Reveals(n, pokemon, a, b) && Reveals(n, pokemon, b, c)
    requires RegionClosed(n, a, c, s1 + s2, r)
    ensures RegionClosed(n, a, b, s1, r) && RegionClosed(n, b, c, s2, r)
  {
    forall x, y | (x, y) in r && NewZero(n, a, b, x, y) ensures Side(x, y) <= r {
      NewZeroSpans(n, pokemon, a, b, c, x, y);
    }
    forall x, y | (x, y) in r && NewZero(n, b, c, x, y) ensures Side(x, y) <= r {
      NewZeroSpans(n, pokemon, a, b, c, x, y);
    }
  }

  /** More seeds allow more changes. */
  lemma SpreadsMore(n: nat, a: Grid, c: Grid, s1: set<(int, int)>, s2: set<(int, int)>)
    requires IsSquare(a, n) && IsSquare(c, n) && s1 <= s2 && Spreads(n, a, c, s1)
    ensures Spreads(n, a, c, s2)
  {
    forall r | RegionClosed(n, a, c, s2, r) ensures ChangesWithin(n, a, c, r) {
      assert RegionClosed(n, a, c, s1, r);
    }
  }

  /** A cell newly shown as "0" during either of two reveals in a row is
      newly shown as "0" over both. */
  lemma NewZeroSpans(n: nat, pokemon: seq<int>, a: Grid, b: Grid, c: Grid, r: int, t: int)
    requires IsSquare(a, n) && IsSquare(b, n) && IsSquare(c, n)
    requires Reveals(n, pokemon, a, b) && Reveals(n, pokemon, b, c)
    ensures NewZero(n, a, b, r, t) ==> NewZero(n, a, c, r, t)
    ensures NewZero(n, b, c, r, t) ==> NewZero(n, a, c, r, t)
  {
  }

  /** The closure of a whole extend_zero call at a zero cell (x, y) that it
      has itself set to "0". */
  lemma ZeroCellClosed(n: nat, pokemon: seq<int>, b0: Grid, b1: Grid, b5: Grid, x: int, y: int)
    requires IsSquare(b0, n) && IsSquare(b1, n) && IsSquare(b5, n) && IsOnBoard(n, x, y)
    requires b1 == Write(b0, x, y, Digit(0))
    requires FloodClosed(n, b1, b5) && NoUnexposedAround(n, b5, x, y)
    ensures FloodClosed(n, b0, b5)
  {
    forall p, q | NewZero(n, b0, b5, p, q) ensures NoUnexposedAround(n, b5, p, q) {
      if p != x || q != y {
        assert NewZero(n, b1, b5, p, q);
      }
    }
  }

  /** A seed (x, y) newly shown as "0" already reaches its side
      neighbours, so they need not be seeds. */
  lemma AbsorbSide(n: nat, a: Grid, c: Grid, seeds: set<(int, int)>, x: int, y: int)
    requires IsSquare(a, n) && IsSquare(c, n)
    requires Spreads(n, a, c, seeds + Side(x, y)) && NewZero(n, a, c, x, y) && (x, y) in seeds
    ensures Spreads(n, a, c, seeds)
  {
    forall r | RegionClosed(n, a, c, seeds, r) ensures ChangesWithin(n, a, c, r) {
      assert Side(x, y) <= r;
      assert RegionClosed(n, a, c, seeds + Side(x, y), r);
    }
  }

  // ---------------------------------------------------------------------
  // left_click and extend_zero on a board that accepts clicks

  /** The branch of left_click for a cell without a pokemon: a "~" cell
      shows its count, and a count of zero starts extend_zero at the same
      cell; any other cell is left alone. */
  function RevealCell(n: nat, pokemon: seq<int>, g: Grid, x: int, y: int): (r: Grid)
    requires IsSquare(g, n) && IsOnBoard(n, x, y) && PositionToIndex(n, x, y) !in pokemon
    ensures IsSquare(r, n)
    ensures Reveals(n, pokemon, g, r) && FloodClosed(n, g, r) && Spreads(n, g, r, {(x, y)})
    ensures g[x][y] == Unexposed ==> r[x][y] == Digit(CalculateCount(n, pokemon, x, y))
    ensures g[x][y] != Unexposed ==> r == g
    ensures |UnexposedCells(r)| <= |UnexposedCells(g)|
    decreases |UnexposedCells(g)|, 0
  {
    if g[x][y] == Unexposed then
      var statistic := CalculateCount(n, pokemon, x, y);
      WriteReveals(n, pokemon, g, x, y);
      var g1 := Write(g, x, y, Digit(statistic));
      if statistic == 0 then
        var r := ExtendZero(n, pokemon, g1, x, y);
        RevealsTrans(n, pokemon, g, g1, r);
        ZeroCellClosed(n, pokemon, g, g1, r, x, y);
        SpreadsTrans(n, pokemon, g, g1, r, {(x, y)}, Seeds(n, pokemon, x, y));
        assert {(x, y)} + Seeds(n, pokemon, x, y) == {(x, y)} + Side(x, y);
        AbsorbSide(n, g, r, {(x, y)}, x, y);
        r
      else
        g1
    else
      g
  }

  /** extend_zero at current_position (x, y); pre_position is never read
      and is not modelled. Off the board nothing happens; a cell with a
      non-zero count is left-clicked; a zero cell shows "0" and each side
      neighbour (up, down, left, right) that is on the board and still
      shows "~" is extended in turn. Its callers reach it only at a cell
      without a pokemon that is not flagged. */
  function ExtendZero(n: nat, pokemon: seq<int>, g: Grid, x: int, y: int): (r: Grid)
    requires IsSquare(g, n)
    requires IsOnBoard(n, x, y) ==> PositionToIndex(n, x, y) !in pokemon && Truthful(n, pokemon, g[x][y], x, y)
    requires IsOnBoard(n, x, y) ==> g[x][y] != Flag
    ensures IsSquare(r, n)
    ensures Reveals(n, pokemon, g, r) && FloodClosed(n, g, r)
    ensures Spreads(n, g, r, Seeds(n, pokemon, x, y))
    ensures !IsOnBoard(n, x, y) ==> r == g
    ensures IsOnBoard(n, x, y) ==> r[x][y] == Digit(CalculateCount(n, pokemon, x, y))
    ensures IsOnBoard(n, x, y) && CalculateCount(n, pokemon, x, y) == 0 ==> NoUnexposedAround(n, r, x, y)
    ensures |UnexposedCells(r)| <= |UnexposedCells(g)|
    decreases |UnexposedCells(g)|, if IsOnBoard(n, x, y) && g[x][y] == Unexposed then 2 else 4
  {
    if !IsOnBoard(n, x, y) then
      g
    else if CalculateCount(n, pokemon, x, y) != 0 then
      RevealCell(n, pokemon, g, x, y)
    else
      WriteReveals(n, pokemon, g, x, y);
      CountZeroIff(n, pokemon, x, y);
      var g1 := Write(g, x, y, Digit(0));
      var g2 := ExtendSide(n, pokemon, g1, x - 1, y);
      var g3 := ExtendSide(n, pokemon, g2, x + 1, y);
      var g4 := ExtendSide(n, pokemon, g3, x, y - 1);
      var g5 := ExtendSide(n, pokemon, g4, x, y + 1);
      ZeroVisits(n, pokemon, g, g1, g2, g3, g4, g5, x, y);
      RevealsShrinks(n, pokemon, g, g5);
      g5
  }

  /** One of the guarded calls at the end of extend_zero: the side
      neighbour (a, b) is extended only when it is on the board and still
      shows "~". */
  function ExtendSide(n: nat, pokemon: seq<int>, g: Grid, a: int, b: int): (r: Grid)
    requires IsSquare(g, n)
    requires IsOnBoard(n, a, b) ==> PositionToIndex(n, a, b) !in pokemon
    ensures IsSquare(r, n) && Visited(n, pokemon, g, r, a, b)
    ensures |UnexposedCells(r)| <= |UnexposedCells(g)|
    decreases |UnexposedCells(g)|, 3
  {
    if IsOnBoard(n, a, b) && g[a][b] == Unexposed then ExtendZero(n, pokemon, g, a, b) else g
  }

  /** A 4-by-4 board with pokemon at (0, 3) and (3, 0) (indices 3 and 12)
      has two areas of zero cells: (0..1, 0..1) and (2..3, 2..3), which
      touch only diagonally. Left-clicking (0, 0) on a fresh board shows "0"
      across the first area but leaves the second one showing "~". */
  lemma SeparateZeroAreaUntouched(pokemon: seq<int>)
    requires pokemon == [3, 12]
    ensures var r := RevealCell(4, pokemon, Blank(4), 0, 0);
            && r[0][1] == Digit(0) && r[1][0] == Digit(0) && r[1][1] == Digit(0)
            && r[2][2] == Unexposed && r[2][3] == Unexposed
            && r[3][2] == Unexposed && r[3][3] == Unexposed
  {
    var r := RevealCell(4, pokemon, Blank(4), 0, 0);
    CornerZeros(pokemon);
    CornerAreaBound(pokemon, r);
    CornerAreaFlooded(pokemon, r);
  }

  /** The zero area of the top-left corner of that board. */
  lemma CornerZeros(pokemon: seq<int>)
    requires pokemon == [3, 12]
    ensures CalculateCount(4, pokemon, 0, 0) == 0 && CalculateCount(4, pokemon, 0, 1) == 0
    ensures CalculateCount(4, pokemon, 1, 0) == 0 && CalculateCount(4, pokemon, 1, 1) == 0
  {
    assert !IsPoke(4, pokemon, -1, -1) && !IsPoke(4, pokemon, -1, 0) && !IsPoke(4, pokemon, -1, 1);
    assert !IsPoke(4, pokemon, -1, 2) && !IsPoke(4, pokemon, 0, -1) && !IsPoke(4, pokemon, 0, 0);
    assert !IsPoke(4, pokemon, 0, 1) && !IsPoke(4, pokemon, 0, 2) && !IsPoke(4, pokemon, 1, -1);
    assert !IsPoke(4, pokemon, 1, 0) && !IsPoke(4, pokemon, 1, 1) && !IsPoke(4, pokemon, 1, 2);
    assert !IsPoke(4, pokemon, 2, -1) && !IsPoke(4, pokemon, 2, 0) && !IsPoke(4, pokemon, 2, 1);
    assert !IsPoke(4, pokemon, 2, 2);
  }

  /** A border cell of that zero area sees a pokemon, so a reveal never
      shows "0" there. */
  lemma CornerBorderNoZero(pokemon: seq<int>, r: Grid, x: int, y: int)
    requires pokemon == [3, 12]
    requires IsSquare(r, 4) && Reveals(4, pokemon, Blank(4), r)
    requires (x, y) in {(0, 2), (1, 2), (2, 0), (2, 1)}
    ensures r[x][y] != Digit(0)
  {
    assert IsPoke(4, pokemon, 0, 3) && IsPoke(4, pokemon, 3, 0);
    if r[x][y] != Blank(4)[x][y] {
      CountZeroIff(4, pokemon, x, y);
    }
  }

  /** The zero area of (0, 0), its border and the side cells off the board
      make a region closed over the seed (0, 0). */
  lemma CornerAreaClosed(pokemon: seq<int>, r: Grid)
    requires pokemon == [3, 12]
    requires IsSquare(r, 4) && Reveals(4, pokemon, Blank(4), r)
    ensures RegionClosed(4, Blank(4), r, {(0, 0)}, CornerArea())
  {
    var zeros := {(0, 0), (0, 1), (1, 0), (1, 1)};
    forall x, y | (x, y) in CornerArea() && NewZero(4, Blank(4), r, x, y) ensures Side(x, y) <= CornerArea() {
      if (x, y) !in zeros {
        CornerBorderNoZero(pokemon, r, x, y);
      }
    }
  }

  function CornerArea(): (area: set<(int, int)>)
    ensures (2, 2) !in area && (2, 3) !in area && (3, 2) !in area && (3, 3) !in area
  {
    {(0, 0), (0, 1), (1, 0), (1, 1)} + {(0, 2), (1, 2), (2, 0), (2, 1)} + {(-1, 0), (-1, 1), (0, -1), (1, -1)}
  }

  /** A reveal of that fresh board spreading from (0, 0) changes nothing
      outside the zero area of (0, 0) and its border. */
  lemma CornerAreaBound(pokemon: seq<int>, r: Grid)
    requires pokemon == [3, 12]
    requires IsSquare(r, 4) && Reveals(4, pokemon, Blank(4), r) && Spreads(4, Blank(4), r, {(0, 0)})
    ensures r[2][2] == Unexposed && r[2][3] == Unexposed && r[3][2] == Unexposed && r[3][3] == Unexposed
  {
    var g := Blank(4);
    CornerAreaClosed(pokemon, r);
    assert ChangesWithin(4, g, r, CornerArea());
    assert g[2][2] == Unexposed && g[2][3] == Unexposed && g[3][2] == Unexposed && g[3][3] == Unexposed;
  }

  /** A closed reveal of that fresh board that shows "0" at (0, 0) shows
      "0" across the zero area of (0, 0). */
  lemma CornerAreaFlooded(pokemon: seq<int>, r: Grid)
    requires pokemon == [3, 12]
    requires IsSquare(r, 4) && Reveals(4, pokemon, Blank(4), r) && FloodClosed(4, Blank(4), r)
    requires r[0][0] == Digit(0)
    requires CalculateCount(4, pokemon, 0, 1) == 0 && CalculateCount(4, pokemon, 1, 0) == 0 && CalculateCount(4, pokemon, 1, 1) == 0
    ensures r[0][1] == Digit(0) && r[1][0] == Digit(0) && r[1][1] == Digit(0)
  {
    var g := Blank(4);
    assert g[0][0] == Unexposed && g[0][1] == Unexposed && g[1][0] == Unexposed && g[1][1] == Unexposed;
    assert NewZero(4, g, r, 0, 0);
    assert r[1][0] != Unexposed && r[0][1] != Unexposed;
    assert NewZero(4, g, r, 1, 0);
    assert r[1][1] != Unexposed;
  }

  // ---------------------------------------------------------------------

  lemma NoPokemonNoCount(n: nat, x: int, y: int)
    ensures CalculateCount(n, [], x, y) == 0
  {
  }

  /** On a board without pokemon a reveal that is closed and has exposed
      one cell has exposed the side neighbour (a, b) of an exposed cell. */
  lemma EmptyBoardStep(n: nat, after: Grid, x: int, y: int, a: int, b: int)
    requires IsSquare(after, n) && Reveals(n, [], Blank(n), after) && FloodClosed(n, Blank(n), after)
    requires IsOnBoard(n, x, y) && after[x][y] != Unexposed
    requires IsOnBoard(n, a, b) && (a, b) in Side(x, y)
    ensures after[a][b] == Digit(0)
  {
    var g := Blank(n);
    assert g[x][y] == Unexposed && g[a][b] == Unexposed;
    NoPokemonNoCount(n, x, y);
    NoPokemonNoCount(n, a, b);
    assert after[x][y] == Digit(0);
    assert NewZero(n, g, after, x, y);
    assert NoUnexposedAround(n, after, x, y);
    if a == x - 1 && b == y {
      assert after[a][b] != Unexposed;
    } else if a == x + 1 && b == y {
      assert after[a][b] != Unexposed;
    } else if a == x && b == y - 1 {
      assert after[a][b] != Unexposed;
    } else {
      assert after[a][b] != Unexposed;
    }
    assert g[a][b] == Unexposed;
  }

  lemma {:induction false} EmptyBoardRow(n: nat, after: Grid, x: int, y: int, b: int)
    requires IsSquare(after, n) && Reveals(n, [], Blank(n), after) && FloodClosed(n, Blank(n), after)
    requires IsOnBoard(n, x, y) && after[x][y] != Unexposed && 0 <= b < n
    ensures after[x][b] == Digit(0)
    decreases if b < y then y - b else b - y
  {
    if b == y {
      NoPokemonNoCount(n, x, y);
    } else if b < y {
      EmptyBoardRow(n, after, x, y, b + 1);
      EmptyBoardStep(n, after, x, b + 1, x, b);
    } else {
      EmptyBoardRow(n, after, x, y, b - 1);
      EmptyBoardStep(n, after, x, b - 1, x, b);
    }
  }

  lemma {:induction false} EmptyBoardColumn(n: nat, after: Grid, x: int, y: int, a: int)
    requires IsSquare(after, n) && Reveals(n, [], Blank(n), after) && FloodClosed(n, Blank(n), after)
    requires IsOnBoard(n, x, y) && after[x][y] != Unexposed && 0 <= a < n
    ensures after[a][y] == Digit(0)
    decreases if a < x then x - a else a - x
  {
    if a == x {
      NoPokemonNoCount(n, x, y);
    } else if a < x {
      EmptyBoardColumn(n, after, x, y, a + 1);
      EmptyBoardStep(n, after, a + 1, y, a, y);
    } else {
      EmptyBoardColumn(n, after, x, y, a - 1);
      EmptyBoardStep(n, after, a - 1, y, a, y);
    }
  }

  /** On a fresh board without pokemon, a closed reveal that has exposed
      any one cell has shown "0" everywhere. */
  lemma EmptyBoardFloods(n: nat, after: Grid, x: int, y: int)
    requires IsSquare(after, n) && Reveals(n, [], Blank(n), after) && FloodClosed(n, Blank(n), after)
    requires IsOnBoard(n, x, y) && after[x][y] != Unexposed
    ensures forall a, b {:trigger after[a][b]} | IsOnBoard(n, a, b) :: after[a][b] == Digit(0)
  {
    forall a, b | IsOnBoard(n, a, b) ensures after[a][b] == Digit(0) {
      EmptyBoardColumn(n, after, x, y, a);
      EmptyBoardRow(n, after, a, y, b);
    }
  }
}

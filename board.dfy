/** The state of a BoardModel as a value: the grid of cell symbols, the
    hidden-pokemon list and the counters and latches. The invariants the
    model keeps, and the pure transitions that right_click, check_win and
    reset_game perform, are defined here; the class in model.dfy carries
    out the same transitions in place. */
module Board {
  import opened Geometry
  import opened Counting

  /** A cell symbol: "~", the flag, a digit "0".."8" (the exposed symbol
      "0" is the digit 0) or the pokemon shown at the end of a game. */
  datatype Cell = Unexposed | Flag | Digit(count: nat) | PokemonMark

  /** displayBoard: rows indexed by x, columns by y. */
  type Grid = seq<seq<Cell>>

  /** The mutable part of a BoardModel: displayBoard, hidden_pokemon,
      left_pokemon, state, loss and isWorking. */
  datatype Game = Game(board: Grid, hidden: seq<int>, left: int, state: bool, loss: bool, working: bool)

  predicate IsSquare(g: Grid, n: nat)
  {
    |g| == n && forall x | 0 <= x < n :: |g[x]| == n
  }

  /** The board every cell of which is "~". */
  function Blank(n: nat): (g: Grid)
    ensures IsSquare(g, n)
    ensures forall x, y | IsOnBoard(n, x, y) :: g[x][y] == Unexposed
  {
    seq(n, _ => seq(n, _ => Unexposed))
  }

  /** set_item on a board value: only cell (x, y) changes. */
  function Write(g: Grid, x: int, y: int, c: Cell): (r: Grid)
    requires 0 <= x < |g| && 0 <= y < |g[x]|
    ensures |r| == |g| && forall a | 0 <= a < |g| :: |r[a]| == |g[a]|
    ensures r[x][y] == c
    ensures forall a, b | 0 <= a < |g| && 0 <= b < |g[a]| && (a != x || b != y) :: r[a][b] == g[a][b]
  {
    g[x := g[x][y := c]]
  }

  /** The board after show_all_pokemon for the pokemon indices ps: each
      cell whose index is in ps shows the pokemon, every other cell is
      as before. */
  function MarkPokemon(n: nat, ps: seq<int>, g: Grid): (r: Grid)
    requires IsSquare(g, n)
    ensures IsSquare(r, n)
    ensures forall x, y | IsOnBoard(n, x, y) :: r[x][y] == if PositionToIndex(n, x, y) in ps then PokemonMark else g[x][y]
  {
    seq(n, x requires 0 <= x < n => seq(n, y requires 0 <= y < n => if PositionToIndex(n, x, y) in ps then PokemonMark else g[x][y]))
  }

  /** Marking no pokemon leaves the board as it is. */
  lemma MarkNone(n: nat, g: Grid)
    requires IsSquare(g, n)
    ensures MarkPokemon(n, [], g) == g
  {
    var r := MarkPokemon(n, [], g);
    forall x | 0 <= x < n ensures r[x] == g[x] {
      assert forall y | 0 <= y < n :: r[x][y] == g[x][y];
    }
  }

  /** Marking one more pokemon index is one more set_item. */
  lemma MarkOneMore(n: nat, ps: seq<int>, i: int, g: Grid)
    requires IsSquare(g, n) && n > 0 && 0 <= i < n * n
    ensures IsOnBoard(n, IndexToPosition(n, i).0, IndexToPosition(n, i).1)
    ensures MarkPokemon(n, ps + [i], g)
            == Write(MarkPokemon(n, ps, g), IndexToPosition(n, i).0, IndexToPosition(n, i).1, PokemonMark)
  {
    IndexRoundTrip(n, i);
    var (p, q) := IndexToPosition(n, i);
    var lhs := MarkPokemon(n, ps + [i], g);
    var rhs := Write(MarkPokemon(n, ps, g), p, q, PokemonMark);
    forall x | 0 <= x < n ensures lhs[x] == rhs[x] {
      forall y | 0 <= y < n ensures lhs[x][y] == rhs[x][y] {
        if PositionToIndex(n, x, y) == i {
          IndexInjective(n, x, y, p, q);
        } else {
          assert x != p || y != q;
        }
      }
    }
  }

  predicate Distinct(s: seq<int>)
  {
    forall i, j | 0 <= i < j < |s| :: s[i] != s[j]
  }

  /** What random.sample(range(0, n ** 2), k) delivers: distinct indices,
      each in [0, n*n). */
  predicate ValidPlacement(n: nat, pokemon: seq<int>)
  {
    Distinct(pokemon) && forall k | 0 <= k < |pokemon| :: 0 <= pokemon[k] < n * n
  }

  /** A cell symbol tells the truth about its position: a digit sits on a
      cell without a pokemon and equals its neighbour count, and the
      pokemon symbol sits only where a pokemon hides. */
  predicate Truthful(n: nat, pokemon: seq<int>, c: Cell, x: int, y: int)
  {
    match c
    case Digit(d) => PositionToIndex(n, x, y) !in pokemon && d == CalculateCount(n, pokemon, x, y)
    case PokemonMark => PositionToIndex(n, x, y) in pokemon
    case _ => true
  }

  /** What holds of every reachable state: the board is n by n, every
      symbol is truthful, and every pokemon whose cell is still "~" is in
      hidden_pokemon (so hidden_pokemon.remove never fails). */
  ghost predicate WellFormed(n: nat, pokemon: seq<int>, s: Game)
  {
    && IsSquare(s.board, n)
    && (forall x, y | IsOnBoard(n, x, y) :: Truthful(n, pokemon, s.board[x][y], x, y))
    && (forall x, y | IsOnBoard(n, x, y) && s.board[x][y] == Unexposed && PositionToIndex(n, x, y) in pokemon ::
          PositionToIndex(n, x, y) in s.hidden)
  }

  /** The indices of the flagged cells. */
  ghost function FlagIndices(n: nat, g: Grid): set<int>
  {
    set x, y | 0 <= x < |g| && 0 <= y < |g[x]| && g[x][y] == Flag :: PositionToIndex(n, x, y)
  }

  /** The bookkeeping of flags while a game is being played:
      hidden_pokemon lists, once each, exactly the pokemon whose cell is
      not flagged, and left_pokemon is num_pokemon minus the number of
      flags. show_all_pokemon (after a loss or a win) overwrites flags and
      ends this bookkeeping. */
  ghost predicate FlagsConsistent(n: nat, pokemon: seq<int>, s: Game)
    requires IsSquare(s.board, n)
  {
    && Distinct(s.hidden)
    && (forall i | i in s.hidden :: i in pokemon)
    && (forall x, y | IsOnBoard(n, x, y) && PositionToIndex(n, x, y) in pokemon ::
          PositionToIndex(n, x, y) in s.hidden <==> s.board[x][y] != Flag)
    && s.left == |pokemon| - |FlagIndices(n, s.board)|
  }

  /** The state __init__ and reset_game produce. */
  function InitialGame(n: nat, pokemon: seq<int>): (r: Game)
    ensures IsSquare(r.board, n) && forall x, y | IsOnBoard(n, x, y) :: r.board[x][y] == Unexposed
    ensures multiset(r.hidden) == multiset(pokemon) && r.left == |pokemon|
    ensures r.state && !r.loss && r.working
  {
    Game(Blank(n), pokemon, |pokemon|, true, false, true)
  }

  /** list.remove: drops the first occurrence of v. */
  function RemoveFirst(s: seq<int>, v: int): (r: seq<int>)
    requires v in s
    ensures multiset(r) == multiset(s) - multiset{v}
    ensures forall u | u in s && u != v :: u in r
    ensures forall u | u in r :: u in s
  {
    if s[0] == v then
      assert s == [s[0]] + s[1..];
      s[1..]
    else
      var rest := RemoveFirst(s[1..], v);
      assert s == [s[0]] + s[1..];
      [s[0]] + rest
  }

  /** Removing from a list without repetitions removes the value entirely
      and keeps the list without repetitions. */
  lemma {:induction false} RemoveFirstDistinct(s: seq<int>, v: int)
    requires v in s && Distinct(s)
    ensures Distinct(RemoveFirst(s, v)) && v !in RemoveFirst(s, v)
  {
    var tail := s[1..];
    assert forall k | 0 <= k < |tail| :: tail[k] == s[k + 1];
    assert Distinct(tail);
    if s[0] != v {
      RemoveFirstDistinct(tail, v);
      var rest := RemoveFirst(tail, v);
      var r := RemoveFirst(s, v);
      assert r == [s[0]] + rest;
      assert s[0] !in tail;
      forall p, q | 0 <= p < q < |r| ensures r[p] != r[q] {
        assert r[q] == rest[q - 1];
        if p > 0 { assert r[p] == rest[p - 1]; }
      }
    } else {
      assert v !in tail;
    }
  }

  /** check_win: the game is won when no pokemon is hidden, no flag is left
      and the game is on; winning shows every pokemon and stops the board
      from accepting clicks. */
  function CheckWinSpec(n: nat, pokemon: seq<int>, s: Game): (r: (bool, Game))
    requires IsSquare(s.board, n)
    ensures r.0 <==> |s.hidden| == 0 && s.left == 0 && s.state
    ensures !r.0 ==> r.1 == s
    ensures r.0 ==> && IsSquare(r.1.board, n) && !r.1.working
                    && r.1.hidden == s.hidden && r.1.left == s.left && r.1.state == s.state && r.1.loss == s.loss
                    && forall x, y | IsOnBoard(n, x, y) ::
                         r.1.board[x][y] == if PositionToIndex(n, x, y) in pokemon then PokemonMark else s.board[x][y]
  {
    if |s.hidden| == 0 && s.left == 0 && s.state then
      (true, s.(board := MarkPokemon(n, pokemon, s.board), working := false))
    else
      (false, s)
  }

  /** The flagging branch of right_click, before check_win: the cell shows
      the flag, left_pokemon drops by one and a pokemon index leaves
      hidden_pokemon. */
  function PlaceFlag(n: nat, pokemon: seq<int>, s: Game, x: int, y: int): (r: Game)
    requires IsSquare(s.board, n) && IsOnBoard(n, x, y)
    requires PositionToIndex(n, x, y) in pokemon ==> PositionToIndex(n, x, y) in s.hidden
    ensures IsSquare(r.board, n) && r.board[x][y] == Flag
    ensures forall a, b | IsOnBoard(n, a, b) && (a != x || b != y) :: r.board[a][b] == s.board[a][b]
    ensures r.left == s.left - 1
    ensures PositionToIndex(n, x, y) in pokemon ==> multiset(r.hidden) == multiset(s.hidden) - multiset{PositionToIndex(n, x, y)}
    ensures PositionToIndex(n, x, y) !in pokemon ==> r.hidden == s.hidden
    ensures r.state == s.state && r.loss == s.loss && r.working == s.working
  {
    var i := PositionToIndex(n, x, y);
    s.(board := Write(s.board, x, y, Flag), left := s.left - 1,
       hidden := if i in pokemon then RemoveFirst(s.hidden, i) else s.hidden)
  }

  /** The unflagging branch of right_click: the cell shows "~" again,
      left_pokemon rises by one and a pokemon index is appended to
      hidden_pokemon. */
  function TakeFlag(n: nat, pokemon: seq<int>, s: Game, x: int, y: int): (r: Game)
    requires IsSquare(s.board, n) && IsOnBoard(n, x, y)
    ensures IsSquare(r.board, n) && r.board[x][y] == Unexposed
    ensures forall a, b | IsOnBoard(n, a, b) && (a != x || b != y) :: r.board[a][b] == s.board[a][b]
    ensures r.left == s.left + 1
    ensures PositionToIndex(n, x, y) in pokemon ==> multiset(r.hidden) == multiset(s.hidden) + multiset{PositionToIndex(n, x, y)}
    ensures PositionToIndex(n, x, y) !in pokemon ==> r.hidden == s.hidden
    ensures r.state == s.state && r.loss == s.loss && r.working == s.working
  {
    var i := PositionToIndex(n, x, y);
    s.(board := Write(s.board, x, y, Unexposed), left := s.left + 1,
       hidden := if i in pokemon then s.hidden + [i] else s.hidden)
  }

  /** right_click at an on-board position. */
  function RightClickSpec(n: nat, pokemon: seq<int>, s: Game, x: int, y: int): (r: Game)
    requires IsSquare(s.board, n) && IsOnBoard(n, x, y)
    requires s.working && s.board[x][y] == Unexposed && PositionToIndex(n, x, y) in pokemon ==>
               PositionToIndex(n, x, y) in s.hidden
    ensures IsSquare(r.board, n) && r.state == s.state && r.loss == s.loss
    ensures !s.working || (s.board[x][y] != Unexposed && s.board[x][y] != Flag) ==> r == s
    ensures s.working && s.board[x][y] == Flag ==> r.board[x][y] == Unexposed && r.left == s.left + 1 && r.working
    ensures s.working && s.board[x][y] == Unexposed ==>
              && r.left == s.left - 1
              && (r.working ==> r.board[x][y] == Flag)
              && (!r.working ==> |r.hidden| == 0 && r.left == 0)
    ensures r.working ==> forall a, b | IsOnBoard(n, a, b) && (a != x || b != y) :: r.board[a][b] == s.board[a][b]
  {
    if !s.working then s
    else if s.board[x][y] == Unexposed then CheckWinSpec(n, pokemon, PlaceFlag(n, pokemon, s, x, y)).1
    else if s.board[x][y] == Flag then TakeFlag(n, pokemon, s, x, y)
    else s
  }

  // ---------------------------------------------------------------------
  // Sizes of sets

  lemma {:induction false} DistinctSize(s: seq<int>)
    requires Distinct(s)
    ensures |set v | v in s| == |s|
  {
    if s != [] {
      var last := |s| - 1;
      DistinctSize(s[..last]);
      assert (set v | v in s) == (set v | v in s[..last]) + {s[last]};
      assert s[last] !in s[..last];
    }
  }

  /** The indices [0, m) as a set. */
  function Range(m: nat): (r: set<int>)
    ensures forall i :: i in r <==> 0 <= i < m
    ensures |r| == m
  {
    if m == 0 then {} else Range(m - 1) + {m - 1}
  }

  lemma SubsetSize<T>(a: set<T>, b: set<T>)
    requires a <= b
    ensures |a| <= |b|
    ensures |a| == |b| ==> a == b
  {
    assert b == a + (b - a);
    assert a * (b - a) == {};
    if |a| == |b| {
      assert |b - a| == 0;
    }
  }

  /** The assertion num_pokemon <= grid_size ** 2 in generate_pokemon holds
      for every placement random.sample can deliver. */
  lemma PlacementFits(n: nat, pokemon: seq<int>)
    requires ValidPlacement(n, pokemon)
    ensures |pokemon| <= n * n
  {
    DistinctSize(pokemon);
    SubsetSize((set v | v in pokemon), Range(n * n));
  }

  // ---------------------------------------------------------------------
  // The flag set under one set_item

  lemma FlagIndicesAdd(n: nat, g: Grid, x: int, y: int)
    requires IsSquare(g, n) && IsOnBoard(n, x, y) && g[x][y] != Flag
    ensures PositionToIndex(n, x, y) !in FlagIndices(n, g)
    ensures FlagIndices(n, Write(g, x, y, Flag)) == FlagIndices(n, g) + {PositionToIndex(n, x, y)}
  {
    var i := PositionToIndex(n, x, y);
    var g' := Write(g, x, y, Flag);
    forall a, b | 0 <= a < n && 0 <= b < n && g[a][b] == Flag
      ensures PositionToIndex(n, a, b) != i
    {
      if PositionToIndex(n, a, b) == i { IndexInjective(n, a, b, x, y); }
    }
    forall j | j in FlagIndices(n, g')
      ensures j in FlagIndices(n, g) + {i}
    {
      var a, b :| 0 <= a < |g'| && 0 <= b < |g'[a]| && g'[a][b] == Flag && j == PositionToIndex(n, a, b);
      if a != x || b != y {
        assert g[a][b] == Flag;
      }
    }
    forall j | j in FlagIndices(n, g) + {i}
      ensures j in FlagIndices(n, g')
    {
      if j == i {
        assert g'[x][y] == Flag;
      } else {
        var a, b :| 0 <= a < |g| && 0 <= b < |g[a]| && g[a][b] == Flag && j == PositionToIndex(n, a, b);
        assert g'[a][b] == Flag;
      }
    }
  }

  lemma FlagIndicesRemove(n: nat, g: Grid, x: int, y: int)
    requires IsSquare(g, n) && IsOnBoard(n, x, y) && g[x][y] == Flag
    ensures PositionToIndex(n, x, y) in FlagIndices(n, g)
    ensures FlagIndices(n, Write(g, x, y, Unexposed)) == FlagIndices(n, g) - {PositionToIndex(n, x, y)}
  {
    var g' := Write(g, x, y, Unexposed);
    FlagIndicesAdd(n, g', x, y);
    assert g[x][y := Unexposed][y := Flag] == g[x];
    assert Write(g', x, y, Flag) == g;
  }

  /** Boards that agree on where the flags are have the same flag set. */
  lemma FlagIndicesSame(n: nat, g: Grid, h: Grid)
    requires IsSquare(g, n) && IsSquare(h, n)
    requires forall x, y | IsOnBoard(n, x, y) :: g[x][y] == Flag <==> h[x][y] == Flag
    ensures FlagIndices(n, g) == FlagIndices(n, h)
  {
    forall j | j in FlagIndices(n, g) ensures j in FlagIndices(n, h) {
      var a, b :| 0 <= a < |g| && 0 <= b < |g[a]| && g[a][b] == Flag && j == PositionToIndex(n, a, b);
      assert h[a][b] == Flag;
    }
    forall j | j in FlagIndices(n, h) ensures j in FlagIndices(n, g) {
      var a, b :| 0 <= a < |h| && 0 <= b < |h[a]| && h[a][b] == Flag && j == PositionToIndex(n, a, b);
      assert g[a][b] == Flag;
    }
  }

  // ---------------------------------------------------------------------
  // Invariants of the transitions

  /** __init__ and reset_game establish both invariants. */
  lemma InitialGameInvariants(n: nat, pokemon: seq<int>)
    requires ValidPlacement(n, pokemon)
    ensures WellFormed(n, pokemon, InitialGame(n, pokemon))
    ensures FlagsConsistent(n, pokemon, InitialGame(n, pokemon))
    ensures InitialGame(n, pokemon).left == |pokemon| && |FlagIndices(n, Blank(n))| == 0
  {
    var g := Blank(n);
    assert forall a, b | 0 <= a < n && 0 <= b < n :: g[a][b] != Flag;
    assert FlagIndices(n, g) == {};
  }

  /** show_all_pokemon keeps the always-true invariant. */
  lemma MarkKeepsWellFormed(n: nat, pokemon: seq<int>, s: Game)
    requires WellFormed(n, pokemon, s)
    ensures WellFormed(n, pokemon, s.(board := MarkPokemon(n, pokemon, s.board)))
  {
    var r := s.(board := MarkPokemon(n, pokemon, s.board));
    forall x, y | IsOnBoard(n, x, y) ensures Truthful(n, pokemon, r.board[x][y], x, y) {
      assert Truthful(n, pokemon, s.board[x][y], x, y);
    }
  }

  /** right_click keeps the always-true invariant. */
  lemma RightClickKeepsWellFormed(n: nat, pokemon: seq<int>, s: Game, x: int, y: int)
    requires WellFormed(n, pokemon, s) && IsOnBoard(n, x, y)
    ensures WellFormed(n, pokemon, RightClickSpec(n, pokemon, s, x, y))
  {
    if s.working && s.board[x][y] == Unexposed {
      var flagged := PlaceFlag(n, pokemon, s, x, y);
      PlaceFlagKeepsWellFormed(n, pokemon, s, x, y);
      if |flagged.hidden| == 0 && flagged.left == 0 && flagged.state {
        MarkKeepsWellFormed(n, pokemon, flagged);
      }
    } else if s.working && s.board[x][y] == Flag {
      TakeFlagKeepsWellFormed(n, pokemon, s, x, y);
    }
  }

  /** Placing a flag on a "~" cell keeps the invariant: the flag needs no
      truth, and every other "~" pokemon stays in hidden_pokemon. */
  lemma PlaceFlagKeepsWellFormed(n: nat, pokemon: seq<int>, s: Game, x: int, y: int)
    requires WellFormed(n, pokemon, s) && IsOnBoard(n, x, y) && s.board[x][y] == Unexposed
    ensures WellFormed(n, pokemon, PlaceFlag(n, pokemon, s, x, y))
  {
    var i := PositionToIndex(n, x, y);
    var flagged := PlaceFlag(n, pokemon, s, x, y);
    forall a, b | IsOnBoard(n, a, b) && flagged.board[a][b] == Unexposed && PositionToIndex(n, a, b) in pokemon
      ensures PositionToIndex(n, a, b) in flagged.hidden
    {
      assert a != x || b != y;
      if PositionToIndex(n, a, b) == i { IndexInjective(n, a, b, x, y); }
    }
  }

  /** Taking a flag off keeps the invariant. */
  lemma TakeFlagKeepsWellFormed(n: nat, pokemon: seq<int>, s: Game, x: int, y: int)
    requires WellFormed(n, pokemon, s) && IsOnBoard(n, x, y) && s.board[x][y] == Flag
    ensures WellFormed(n, pokemon, TakeFlag(n, pokemon, s, x, y))
  {
    var r := TakeFlag(n, pokemon, s, x, y);
    forall a, b | IsOnBoard(n, a, b) ensures Truthful(n, pokemon, r.board[a][b], a, b) {
      assert Truthful(n, pokemon, s.board[a][b], a, b);
    }
  }

  /** right_click keeps the flag bookkeeping, unless the flag it places wins
      the game (then check_win has shown every pokemon). */
  lemma PlaceFlagKeepsConsistent(n: nat, pokemon: seq<int>, s: Game, x: int, y: int)
    requires IsSquare(s.board, n) && FlagsConsistent(n, pokemon, s)
    requires IsOnBoard(n, x, y) && s.board[x][y] == Unexposed
    ensures FlagsConsistent(n, pokemon, PlaceFlag(n, pokemon, s, x, y))
  {
    var i := PositionToIndex(n, x, y);
    var r := PlaceFlag(n, pokemon, s, x, y);
    FlagIndicesAdd(n, s.board, x, y);
    if i in pokemon { RemoveFirstDistinct(s.hidden, i); }
    forall a, b | IsOnBoard(n, a, b) && PositionToIndex(n, a, b) in pokemon
      ensures PositionToIndex(n, a, b) in r.hidden <==> r.board[a][b] != Flag
    {
      if (a != x || b != y) && PositionToIndex(n, a, b) == i {
        IndexInjective(n, a, b, x, y);
      }
    }
  }

  lemma TakeFlagKeepsConsistent(n: nat, pokemon: seq<int>, s: Game, x: int, y: int)
    requires IsSquare(s.board, n) && FlagsConsistent(n, pokemon, s)
    requires IsOnBoard(n, x, y) && s.board[x][y] == Flag
    ensures FlagsConsistent(n, pokemon, TakeFlag(n, pokemon, s, x, y))
  {
    var i := PositionToIndex(n, x, y);
    var r := TakeFlag(n, pokemon, s, x, y);
    FlagIndicesRemove(n, s.board, x, y);
    assert i in pokemon ==> i !in s.hidden;
    forall a, b | IsOnBoard(n, a, b) && PositionToIndex(n, a, b) in pokemon
      ensures PositionToIndex(n, a, b) in r.hidden <==> r.board[a][b] != Flag
    {
      if (a != x || b != y) && PositionToIndex(n, a, b) == i {
        IndexInjective(n, a, b, x, y);
      }
    }
    assert Distinct(r.hidden) by {
      if i in pokemon {
        forall p, q | 0 <= p < q < |r.hidden| ensures r.hidden[p] != r.hidden[q] {
          if q == |r.hidden| - 1 { assert r.hidden[p] in s.hidden; }
        }
      }
    }
  }

  /** right_click keeps the flag bookkeeping, unless the flag it places wins
      the game (then check_win has shown every pokemon). */
  lemma RightClickKeepsConsistent(n: nat, pokemon: seq<int>, s: Game, x: int, y: int)
    requires IsSquare(s.board, n) && FlagsConsistent(n, pokemon, s)
    requires IsOnBoard(n, x, y)
    ensures var r := RightClickSpec(n, pokemon, s, x, y);
            r.working || !s.working ==> FlagsConsistent(n, pokemon, r)
  {
    if s.working && s.board[x][y] == Unexposed {
      PlaceFlagKeepsConsistent(n, pokemon, s, x, y);
    } else if s.working && s.board[x][y] == Flag {
      TakeFlagKeepsConsistent(n, pokemon, s, x, y);
    }
  }

  /** Flagging a "~" cell and then clicking it again gives back the cell,
      the counter and the hidden pokemon (as a multiset: the index moves
      to the end of the list), unless the flag won the game, in which case
      the second click does nothing. */
  lemma FlagThenUnflag(n: nat, pokemon: seq<int>, s: Game, x: int, y: int)
    requires WellFormed(n, pokemon, s) && IsOnBoard(n, x, y)
    requires s.working && s.board[x][y] == Unexposed
    ensures var r1 := RightClickSpec(n, pokemon, s, x, y);
            var r2 := RightClickSpec(n, pokemon, r1, x, y);
            && (r1.working ==> r2.board == s.board && r2.left == s.left
                               && multiset(r2.hidden) == multiset(s.hidden) && r2.working)
            && (!r1.working ==> r2 == r1)
  {
    var i := PositionToIndex(n, x, y);
    var r1 := RightClickSpec(n, pokemon, s, x, y);
    var r2 := RightClickSpec(n, pokemon, r1, x, y);
    if r1.working {
      assert r1.board == Write(s.board, x, y, Flag);
      assert r2.board == Write(r1.board, x, y, Unexposed);
      assert r2.board == s.board by {
        assert s.board[x][y := Flag][y := Unexposed] == s.board[x];
      }
      if i in pokemon {
        assert r2.hidden == RemoveFirst(s.hidden, i) + [i];
      }
    }
  }

  lemma WonFlagsArePokemon(n: nat, pokemon: seq<int>, s: Game)
    requires ValidPlacement(n, pokemon) && IsSquare(s.board, n) && FlagsConsistent(n, pokemon, s)
    requires |s.hidden| == 0 && s.left == 0
    ensures forall x, y | IsOnBoard(n, x, y) :: s.board[x][y] == Flag <==> PositionToIndex(n, x, y) in pokemon
  {
    var flags := FlagIndices(n, s.board);
    var pset := set v | v in pokemon;
    forall i | i in pset ensures i in flags {
      var k :| 0 <= k < |pokemon| && pokemon[k] == i;
      IndexRoundTrip(n, i);
      var (a, b) := IndexToPosition(n, i);
      assert i !in s.hidden;
      assert s.board[a][b] == Flag;
    }
    DistinctSize(pokemon);
    SubsetSize(pset, flags);
    forall x, y | IsOnBoard(n, x, y) && s.board[x][y] == Flag ensures PositionToIndex(n, x, y) in pokemon {
      assert PositionToIndex(n, x, y) in flags;
    }
  }

  lemma FlagsArePokemonWon(n: nat, pokemon: seq<int>, s: Game)
    requires ValidPlacement(n, pokemon) && IsSquare(s.board, n) && FlagsConsistent(n, pokemon, s)
    requires forall x, y | IsOnBoard(n, x, y) :: s.board[x][y] == Flag <==> PositionToIndex(n, x, y) in pokemon
    ensures |s.hidden| == 0 && s.left == 0
  {
    var flags := FlagIndices(n, s.board);
    var pset := set v | v in pokemon;
    if s.hidden != [] {
      var i := s.hidden[0];
      assert i in pokemon;
      var k :| 0 <= k < |pokemon| && pokemon[k] == i;
      IndexRoundTrip(n, i);
      assert false;
    }
    forall i | i in pset ensures i in flags {
      var k :| 0 <= k < |pokemon| && pokemon[k] == i;
      IndexRoundTrip(n, i);
      var (a, b) := IndexToPosition(n, i);
      assert s.board[a][b] == Flag;
    }
    forall j | j in flags ensures j in pset {
      var a, b :| 0 <= a < n && 0 <= b < n && s.board[a][b] == Flag && j == PositionToIndex(n, a, b);
    }
    assert flags == pset;
    DistinctSize(pokemon);
  }

  /** The win test of check_win, read through the flag bookkeeping: no
      pokemon hidden and no flag left holds exactly when the flagged cells
      are the pokemon cells. */
  lemma WinCondition(n: nat, pokemon: seq<int>, s: Game)
    requires ValidPlacement(n, pokemon) && IsSquare(s.board, n) && FlagsConsistent(n, pokemon, s)
    ensures (|s.hidden| == 0 && s.left == 0) <==>
            forall x, y | IsOnBoard(n, x, y) :: s.board[x][y] == Flag <==> PositionToIndex(n, x, y) in pokemon
  {
    if |s.hidden| == 0 && s.left == 0 {
      WonFlagsArePokemon(n, pokemon, s);
    }
    if forall x, y | IsOnBoard(n, x, y) :: s.board[x][y] == Flag <==> PositionToIndex(n, x, y) in pokemon {
      FlagsArePokemonWon(n, pokemon, s);
    }
  }

  /** left_pokemon has no lower bound: on a board without pokemon, one flag
      takes it to -1. */
  lemma OverFlagging()
    ensures RightClickSpec(2, [], InitialGame(2, []), 0, 0).left == -1
  {
  }

  /** A three-by-three board with its only pokemon in the centre: flagging
      the centre wins, shows the pokemon there and stops the board. */
  lemma FlagTheOnlyPokemon()
    ensures var r := RightClickSpec(3, [4], InitialGame(3, [4]), 1, 1);
            !r.working && r.left == 0 && r.hidden == [] && r.board[1][1] == PokemonMark
  {
    assert PositionToIndex(3, 1, 1) == 4;
  }
}

/** The class BoardModel: the game's internal state, updated in place by
    left and right clicks, the recursive reveal of zero cells, the win and
    loss checks and the reset. Every state-changing method states its new
    state through the specifications of board.dfy and flood.dfy. */
module Model {
  import opened Geometry
  import opened Counting
  import opened Board
  import opened Flood

  class BoardModel {
    const gridSize: nat
    const numPokemon: nat
    /** The placement: the indices random.sample chose in __init__. */
    const pokemon: seq<int>

    var board: Grid
    var hiddenPokemon: seq<int>
    var leftPokemon: int
    var state: bool
    var loss: bool
    var isWorking: bool

    /** The mutable attributes as a value. */
    function Snap(): Game
      reads this
    {
      Game(board, hiddenPokemon, leftPokemon, state, loss, isWorking)
    }

    /** What every public method keeps: the placement is one random.sample
        can deliver, num_pokemon is its length, and the state is well
        formed. */
    ghost predicate Valid()
      reads this
    {
      && ValidPlacement(gridSize, pokemon)
      && numPokemon == |pokemon|
      && WellFormed(gridSize, pokemon, Snap())
    }

    /** The flag bookkeeping of a game being played. */
    ghost predicate Consistent()
      reads this
    {
      IsSquare(board, gridSize) && FlagsConsistent(gridSize, pokemon, Snap())
    }

    /** __init__ together with generate_pokemon: the random sample is the
        parameter placement. */
    constructor(gridSize: nat, numPokemon: nat, placement: seq<int>)
      requires |placement| == numPokemon && ValidPlacement(gridSize, placement)
      ensures this.gridSize == gridSize && this.numPokemon == numPokemon && pokemon == placement
      ensures Snap() == InitialGame(gridSize, placement)
      ensures Valid() && Consistent()
    {
      this.gridSize := gridSize;
      this.numPokemon := numPokemon;
      pokemon := placement;
      board := Blank(gridSize);
      leftPokemon := numPokemon;
      state := true;
      loss := false;
      isWorking := true;
      hiddenPokemon := placement;
      new;
      InitialGameInvariants(gridSize, placement);
    }

    /** get_item: the symbol on an on-board cell, which tells the truth
        about that cell. */
    function GetItem(x: int, y: int): (c: Cell)
      reads this
      requires IsSquare(board, gridSize) && IsOnBoard(gridSize, x, y)
      ensures Valid() ==> Truthful(gridSize, pokemon, c, x, y)
      ensures c == Unexposed && PositionToIndex(gridSize, x, y) in pokemon && Valid() ==>
                PositionToIndex(gridSize, x, y) in hiddenPokemon
    {
      board[x][y]
    }

    /** get_num_attempted_catches: while a game is played it is the number
        of flags on the board. */
    function NumAttemptedCatches(): (k: int)
      reads this
      ensures Valid() && Consistent() ==> k == |FlagIndices(gridSize, board)|
    {
      numPokemon - leftPokemon
    }

    /** set_state */
    method SetState(b: bool)
      modifies this`state
      ensures state == b
    {
      state := b;
    }

    /** triggle_isworking */
    method TriggleIsWorking(b: bool)
      modifies this`isWorking
      ensures isWorking == b
    {
      isWorking := b;
    }

    /** set_item */
    method SetItem(x: int, y: int, c: Cell)
      requires IsSquare(board, gridSize) && IsOnBoard(gridSize, x, y)
      modifies this`board
      ensures board == Write(old(board), x, y, c)
    {
      board := Write(board, x, y, c);
    }

    /** show_all_pokemon: every pokemon cell shows the pokemon, every other
        cell keeps its symbol. */
    method ShowAllPokemon()
      requires IsSquare(board, gridSize) && ValidPlacement(gridSize, pokemon)
      modifies this`board
      ensures board == MarkPokemon(gridSize, pokemon, old(board))
    {
      MarkNone(gridSize, board);
      for k := 0 to |pokemon|
        invariant IsSquare(board, gridSize)
        invariant board == MarkPokemon(gridSize, pokemon[..k], old(board))
      {
        var i := pokemon[k];
        assert gridSize > 0;
        MarkOneMore(gridSize, pokemon[..k], i, old(board));
        assert pokemon[..k + 1] == pokemon[..k] + [i];
        var (x, y) := IndexToPosition(gridSize, i);
        SetItem(x, y, PokemonMark);
      }
      assert pokemon[..|pokemon|] == pokemon;
    }

    /** reset_game: every cell back to "~", all counters and latches back
        to the start of a game, hidden_pokemon a copy of the placement. */
    method ResetGame()
      requires Valid()
      modifies this
      ensures Snap() == InitialGame(gridSize, pokemon)
      ensures Valid() && Consistent()
    {
      var i := 0;
      while i < gridSize
        invariant 0 <= i <= gridSize && IsSquare(board, gridSize)
        invariant forall a, b | 0 <= a < i && 0 <= b < gridSize :: board[a][b] == Unexposed
      {
        var j := 0;
        while j < gridSize
          invariant 0 <= j <= gridSize && IsSquare(board, gridSize)
          invariant forall a, b | 0 <= a < i && 0 <= b < gridSize :: board[a][b] == Unexposed
          invariant forall b | 0 <= b < j :: board[i][b] == Unexposed
        {
          board := Write(board, i, j, Unexposed);
          j := j + 1;
        }
        i := i + 1;
      }
      forall a | 0 <= a < gridSize ensures board[a] == Blank(gridSize)[a] {
        assert forall b | 0 <= b < gridSize :: board[a][b] == Blank(gridSize)[a][b];
      }
      assert board == Blank(gridSize);
      state := true;
      leftPokemon := numPokemon;
      loss := false;
      TriggleIsWorking(true);
      hiddenPokemon := pokemon;
      InitialGameInvariants(gridSize, pokemon);
    }

    /** check_win */
    method CheckWin() returns (won: bool)
      requires IsSquare(board, gridSize) && ValidPlacement(gridSize, pokemon)
      modifies this`board, this`isWorking
      ensures (won, Snap()) == CheckWinSpec(gridSize, pokemon, old(Snap()))
    {
      if |hiddenPokemon| == 0 && leftPokemon == 0 && state {
        ShowAllPokemon();
        isWorking := false;
        return true;
      } else {
        return false;
      }
    }

    /** check_lose: a loss recorded while the game is on stops the board. */
    method CheckLose() returns (lost: bool)
      modifies this`isWorking
      ensures lost <==> loss && state
      ensures isWorking == if lost then false else old(isWorking)
    {
      if loss && state {
        isWorking := false;
        return true;
      } else {
        return false;
      }
    }

    /** right_click at an on-board position. */
    method RightClick(x: int, y: int)
      requires Valid() && IsOnBoard(gridSize, x, y)
      modifies this`board, this`hiddenPokemon, this`leftPokemon, this`isWorking
      ensures Snap() == RightClickSpec(gridSize, pokemon, old(Snap()), x, y)
      ensures Valid()
      ensures old(Consistent()) && (isWorking || !old(isWorking)) ==> Consistent()
    {
      ghost var s := Snap();
      if isWorking {
        var index := PositionToIndex(gridSize, x, y);
        if GetItem(x, y) == Unexposed {
          SetItem(x, y, Flag);
          leftPokemon := leftPokemon - 1;
          if index in pokemon {
            hiddenPokemon := RemoveFirst(hiddenPokemon, index);
          }
          assert Snap() == PlaceFlag(gridSize, pokemon, s, x, y);
          var won := CheckWin();
        } else if GetItem(x, y) == Flag {
          SetItem(x, y, Unexposed);
          leftPokemon := leftPokemon + 1;
          if index in pokemon {
            hiddenPokemon := hiddenPokemon + [index];
          }
        }
      }
      RightClickKeepsWellFormed(gridSize, pokemon, s, x, y);
      if old(Consistent()) {
        RightClickKeepsConsistent(gridSize, pokemon, s, x, y);
      }
    }

    /** left_click at an on-board position. On a pokemon (flagged or not)
        the game is lost and every pokemon is shown; elsewhere the cell is
        revealed as RevealCell describes. */
    method LeftClick(x: int, y: int)
      requires Valid() && IsOnBoard(gridSize, x, y)
      modifies this`board, this`loss
      ensures Valid()
      ensures !isWorking ==> board == old(board) && loss == old(loss)
      ensures isWorking && PositionToIndex(gridSize, x, y) in pokemon ==>
                loss && board == MarkPokemon(gridSize, pokemon, old(board))
      ensures isWorking && PositionToIndex(gridSize, x, y) !in pokemon ==>
                loss == old(loss) && board == RevealCell(gridSize, pokemon, old(board), x, y)
      ensures PositionToIndex(gridSize, x, y) !in pokemon && old(Consistent()) ==> Consistent()
    {
      if isWorking {
        if PositionToIndex(gridSize, x, y) !in pokemon {
          var revealed := RevealCell(gridSize, pokemon, board, x, y);
          RevealsKeepWellFormed(gridSize, pokemon, Snap(), revealed);
          if Consistent() {
            RevealsKeepConsistent(gridSize, pokemon, Snap(), revealed);
          }
          board := revealed;
        } else {
          loss := true;
          MarkKeepsWellFormed(gridSize, pokemon, Snap());
          ShowAllPokemon();
        }
      }
    }
  }
}
